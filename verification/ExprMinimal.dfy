/**
 Precedence and associativity of the parser (libs/pipeline-expression/parser.go): a second printer writes only the
 parentheses that are needed when `or`, `and`, comparisons, sums, products and prefixes bind ever tighter and chains
 of one level group to the left.  Parsing its text gives back every printable tree.
 */
module ExprMinimal {
  import opened Common
  import opened ExprSyntax
  import opened ExprLexer
  import opened ExprParser
  import opened ExprPrinter
  import opened ExprRoundTrip
  import Ascii

  // ---------------------------------------------------------------------------------------------
  // The printer
  // ---------------------------------------------------------------------------------------------

  function OpLevel(op: BinaryOp): (k: nat)
    ensures k <= 4
  {
    match op
    case Or => 0
    case And => 1
    case Add => 3
    case Sub => 3
    case Mul => 4
    case Div => 4
    case _ => 2
  }

  /** How tightly the outermost construct of a tree binds; names, literals and calls bind tightest. */
  function LevelOf(e: Expr): (k: nat)
    ensures k <= 6
  {
    match e
    case Binary(op, _, _) => OpLevel(op)
    case Unary(_, _) => 5
    case _ => 6
  }

  /** A left operand of the same level needs no parentheses, except under a comparison, which does not chain. */
  function LeftLevel(op: BinaryOp): (k: nat)
    ensures k <= 4
  {
    if OpLevel(op) == 2 then 3 else OpLevel(op)
  }

  /** The text of an operand where the context binds with level k. */
  function MinPrint(c: FloatCodec, e: Expr, k: nat): string
    decreases e, 1
  {
    if LevelOf(e) < k then "(" + BareText(c, e) + ")" else BareText(c, e)
  }

  function BareText(c: FloatCodec, e: Expr): string
    decreases e, 0
  {
    match e
    case Lit(lit) => PrintLit(c, lit)
    case Column(name) => name
    case Call(name, args) => name + "(" + MinPrintArgs(c, args) + ")"
    case Unary(op, operand) => UnaryText(op) + MinPrint(c, operand, 5)
    case Binary(op, left, right) =>
      MinPrint(c, left, LeftLevel(op)) + " " + OpText(op) + " " + MinPrint(c, right, OpLevel(op) + 1)
  }

  function MinPrintArgs(c: FloatCodec, args: seq<Expr>): string
    decreases args, 0
  {
    if args == [] then ""
    else if |args| == 1 then MinPrint(c, args[0], 0)
    else MinPrint(c, args[0], 0) + ", " + MinPrintArgs(c, args[1..])
  }

  /** The tokens of that text. */
  function MinToks(c: FloatCodec, e: Expr, k: nat): (ts: Tokens)
    ensures ts != []
    decreases e, 1
  {
    if LevelOf(e) < k then [TLParen] + BareToks(c, e) + [TRParen] else BareToks(c, e)
  }

  function BareToks(c: FloatCodec, e: Expr): (ts: Tokens)
    ensures ts != []
    decreases e, 0
  {
    match e
    case Lit(lit) => LitToks(c, lit)
    case Column(name) => [TIdent(name)]
    case Call(name, args) => [TIdent(name), TLParen] + MinArgToks(c, args) + [TRParen]
    case Unary(op, operand) => [PrefixToken(op)] + MinToks(c, operand, 5)
    case Binary(op, left, right) =>
      MinToks(c, left, LeftLevel(op)) + [OpToken(op)] + MinToks(c, right, OpLevel(op) + 1)
  }

  function MinArgToks(c: FloatCodec, args: seq<Expr>): Tokens
    decreases args, 0
  {
    if args == [] then []
    else if |args| == 1 then MinToks(c, args[0], 0)
    else MinToks(c, args[0], 0) + [TComma] + MinArgToks(c, args[1..])
  }

  function PrefixToken(op: UnaryOp): Token {
    if op == Neg then TMinus else TIdent("not")
  }

  // ---------------------------------------------------------------------------------------------
  // The levels of the parser
  // ---------------------------------------------------------------------------------------------

  function ParseAt(c: FloatCodec, k: nat, ts: Tokens): Parsed<Expr> {
    match k
    case 0 => ParseOr(c, ts)
    case 1 => ParseAnd(c, ts)
    case 2 => ParseCmp(c, ts)
    case 3 => ParseAdd(c, ts)
    case 4 => ParseMul(c, ts)
    case _ => ParseUnary(c, ts)
  }

  /** What level k goes on to do once it has read its first operand. */
  function GoOn(c: FloatCodec, k: nat, left: Expr, ts: Tokens): Parsed<Expr> {
    match k
    case 0 => OrLoop(c, left, ts)
    case 1 => AndLoop(c, left, ts)
    case 2 =>
      if ts == [] || CmpOp(ts[0]).None? then Ok((left, ts)) else
      (match ParseAdd(c, ts[1..])
       case Err(e) => Err(e)
       case Ok((right, rest)) => Ok((Binary(CmpOp(ts[0]).value, left, right), rest)))
    case 3 => AddLoop(c, left, ts)
    case 4 => MulLoop(c, left, ts)
    case _ => Ok((left, ts))
  }

  /** No operator of level k or tighter follows. */
  predicate Stops(k: nat, ts: Tokens) {
    match k
    case 0 => StopsAnd(ts) && !IsWord(ts, "or")
    case 1 => StopsAnd(ts)
    case 2 => StopsCmp(ts)
    case 3 => StopsAdd(ts)
    case 4 => StopsMul(ts)
    case _ => true
  }

  lemma FirstOperand(c: FloatCodec, k: nat, ts: Tokens, left: Expr, rest: Tokens)
    requires k <= 4 && ParseAt(c, k + 1, ts) == Ok((left, rest))
    ensures ParseAt(c, k, ts) == GoOn(c, k, left, rest)
  {
  }

  lemma StopsHere(c: FloatCodec, k: nat, e: Expr, ts: Tokens)
    requires Stops(k, ts)
    ensures GoOn(c, k, e, ts) == Ok((e, ts))
  {
  }

  lemma StopsAbove(k: nat, ts: Tokens)
    requires Stops(k, ts)
    ensures Stops(k + 1, ts)
  {
  }

  lemma ClosingStops(ts: Tokens)
    requires Closes(ts)
    ensures Stops(0, ts) && NoCall(ts)
  {
  }

  /** An operator of level k ends every tighter level. */
  lemma OperatorStops(op: BinaryOp, us: Tokens)
    ensures Stops(OpLevel(op) + 1, [OpToken(op)] + us) && NoCall([OpToken(op)] + us)
  {
    WordsDiffer();
  }

  /** At its own level the operator takes the next operand of the next level. */
  lemma OperatorGoesOn(c: FloatCodec, op: BinaryOp, left: Expr, us: Tokens, right: Expr, rest: Tokens)
    requires ParseAt(c, OpLevel(op) + 1, us) == Ok((right, rest))
    ensures GoOn(c, OpLevel(op), left, [OpToken(op)] + us) ==
      if OpLevel(op) == 2 then Ok((Binary(op, left, right), rest))
      else GoOn(c, OpLevel(op), Binary(op, left, right), rest)
  {
    hide ParseUnary, ParseMul, ParseAdd, ParseCmp, ParseAnd, ParseOr;
    WordsDiffer();
    var ts := [OpToken(op)] + us;
    assert ts[0] == OpToken(op) && ts[1..] == us;
  }

  /** From an operand up to level k. */
  lemma {:induction false} UpTo(c: FloatCodec, k: nat, ts: Tokens, e: Expr, rest: Tokens)
    requires k <= 5 && ParseUnary(c, ts) == Ok((e, rest)) && Stops(k + 1, rest)
    ensures ParseAt(c, k, ts) == GoOn(c, k, e, rest)
    decreases 5 - k
  {
    hide ParseUnary, Stops, ParseAt, GoOn;
    if k < 5 {
      StopsAbove(k + 1, rest);
      UpTo(c, k + 1, ts, e, rest);
      StopsHere(c, k + 1, e, rest);
      FirstOperand(c, k, ts, e, rest);
    } else {
      OperandLevel(c, ts, e, rest);
    }
  }

  lemma OperandLevel(c: FloatCodec, ts: Tokens, e: Expr, rest: Tokens)
    ensures ParseAt(c, 5, ts) == ParseUnary(c, ts) && GoOn(c, 5, e, rest) == Ok((e, rest))
    ensures ParseAt(c, 0, ts) == ParseOr(c, ts)
  {
  }

  // ---------------------------------------------------------------------------------------------
  // The tokens parse back
  // ---------------------------------------------------------------------------------------------

  /** What follows an operand read at level k must not continue it; a comparison does not chain. */
  predicate Ends(k: nat, rest: Tokens) {
    NoCall(rest) && Stops(if k == 2 then 2 else k + 1, rest)
  }

  lemma EndsAbove(k: nat, rest: Tokens)
    requires Stops(k + 1, rest) && NoCall(rest)
    ensures Ends(k + 1, rest)
  {
    StopsAbove(k + 1, rest);
  }

  lemma EndsStops(k: nat, rest: Tokens)
    requires Ends(k, rest)
    ensures Stops(k + 1, rest) && NoCall(rest)
  {
    if k == 2 {
      StopsAbove(2, rest);
    }
  }

  /** Reading the tokens of a tree at level k arrives at the tree, with the level's loop still to go on. */
  lemma {:induction false} MinToksParse(c: FloatCodec, e: Expr, k: nat, rest: Tokens)
    requires k <= 5 && Printable(c, e) && Ends(k, rest)
    ensures ParseAt(c, k, MinToks(c, e, k) + rest) == GoOn(c, k, e, rest)
    decreases e, if LevelOf(e) < k then 10 else 7 - k
  {
    hide ParseAt, GoOn, Stops, Ends, Printable, BareToks, ParseUnary, ParseOr;
    EndsStops(k, rest);
    var ts := MinToks(c, e, k) + rest;
    if LevelOf(e) < k {
      var close := [TRParen] + rest;
      var inner := MinToks(c, e, 0) + close;
      assert ts == [TLParen] + inner;
      InParentheses(rest);
      MinToksParse(c, e, 0, close);
      StopsHere(c, 0, e, close);
      OperandLevel(c, inner, e, close);
      ParenParses(c, inner, e, rest);
      UpTo(c, k, ts, e, rest);
    } else if LevelOf(e) > k && k < 5 {
      EndsAbove(k, rest);
      MinToksParse(c, e, k + 1, rest);
      StopsHere(c, k + 1, e, rest);
      FirstOperand(c, k, ts, e, rest);
    } else if e.Binary? {
      BinaryMinParses(c, e.binaryOp, e.left, e.right, rest);
    } else {
      OperandMinParses(c, e, rest);
      OperandLevel(c, ts, e, rest);
    }
  }

  lemma InParentheses(rest: Tokens)
    ensures Ends(0, [TRParen] + rest) && Stops(0, [TRParen] + rest)
  {
    ClosingStops([TRParen] + rest);
    StopsAbove(0, [TRParen] + rest);
  }

  lemma {:induction false} BinaryMinParses(c: FloatCodec, op: BinaryOp, left: Expr, right: Expr, rest: Tokens)
    requires Printable(c, Binary(op, left, right)) && Ends(OpLevel(op), rest)
    ensures
      var k := OpLevel(op);
      ParseAt(c, k, MinToks(c, Binary(op, left, right), k) + rest) == GoOn(c, k, Binary(op, left, right), rest)
    decreases Binary(op, left, right), 0
  {
    assert Printable(c, left) && Printable(c, right);
    hide ParseAt, GoOn, Ends, OpToken, OpLevel, LeftLevel, MinToks, Printable;
    var us := MinToks(c, right, OpLevel(op) + 1) + rest;
    var mid := [OpToken(op)] + us;
    BinaryMinToks(c, op, left, right, rest);
    RightMinParses(c, op, right, rest);
    LeftEnds(op, us);
    MinToksParse(c, left, LeftLevel(op), mid);
    OperandsMeet(c, op, MinToks(c, left, LeftLevel(op)) + mid, left, us, right, rest);
  }

  lemma {:induction false} RightMinParses(c: FloatCodec, op: BinaryOp, right: Expr, rest: Tokens)
    requires Printable(c, right) && Ends(OpLevel(op), rest)
    ensures ParseAt(c, OpLevel(op) + 1, MinToks(c, right, OpLevel(op) + 1) + rest) == Ok((right, rest))
    decreases right, 11
  {
    hide ParseAt, GoOn, Ends, Stops, OpLevel, MinToks, Printable;
    var k := OpLevel(op);
    EndsStops(k, rest);
    EndsAbove(k, rest);
    MinToksParse(c, right, k + 1, rest);
    StopsHere(c, k + 1, right, rest);
  }

  lemma OperandsMeet(c: FloatCodec, op: BinaryOp, ts: Tokens, left: Expr, us: Tokens, right: Expr, rest: Tokens)
    requires ParseAt(c, OpLevel(op) + 1, us) == Ok((right, rest)) && Ends(OpLevel(op), rest)
    requires ParseAt(c, LeftLevel(op), ts) == GoOn(c, LeftLevel(op), left, [OpToken(op)] + us)
    ensures ParseAt(c, OpLevel(op), ts) == GoOn(c, OpLevel(op), Binary(op, left, right), rest)
  {
    hide ParseAt, GoOn, Stops, Ends, OpToken, OpLevel;
    OperatorGoesOn(c, op, left, us, right, rest);
    if OpLevel(op) == 2 {
      OperatorStops(op, us);
      StopsHere(c, 3, left, [OpToken(op)] + us);
      FirstOperand(c, 2, ts, left, [OpToken(op)] + us);
      ChainEnds(c, Binary(op, left, right), rest);
    }
  }

  lemma BinaryMinToks(c: FloatCodec, op: BinaryOp, left: Expr, right: Expr, rest: Tokens)
    ensures MinToks(c, Binary(op, left, right), OpLevel(op)) + rest ==
      MinToks(c, left, LeftLevel(op)) + ([OpToken(op)] + (MinToks(c, right, OpLevel(op) + 1) + rest))
  {
    hide OpLevel, LeftLevel, OpToken;
    var k := OpLevel(op);
    assert MinToks(c, Binary(op, left, right), k) == BareToks(c, Binary(op, left, right));
  }

  lemma ChainEnds(c: FloatCodec, e: Expr, rest: Tokens)
    requires Ends(2, rest)
    ensures GoOn(c, 2, e, rest) == Ok((e, rest))
  {
    StopsHere(c, 2, e, rest);
  }

  lemma LeftEnds(op: BinaryOp, us: Tokens)
    ensures Ends(LeftLevel(op), [OpToken(op)] + us)
  {
    hide Stops, OpToken, NoCall;
    OperatorStops(op, us);
    if OpLevel(op) == 2 {
      StopsAbove(3, [OpToken(op)] + us);
    }
  }

  /** Names, literals, calls and prefixes. */
  lemma {:induction false} OperandMinParses(c: FloatCodec, e: Expr, rest: Tokens)
    requires Printable(c, e) && LevelOf(e) >= 5 && NoCall(rest)
    ensures ParseUnary(c, MinToks(c, e, 5) + rest) == Ok((e, rest))
    decreases e, 0
  {
    hide ParseUnary, NoCall;
    match e
    case Lit(lit) => LitParses(c, lit, rest);
    case Column(name) => ColumnParses(c, name, rest);
    case Call(name, args) => CallMinParses(c, name, args, rest);
    case Unary(op, operand) =>
      var us := MinToks(c, operand, 5) + rest;
      PrefixEnds(rest);
      MinToksParse(c, operand, 5, rest);
      OperandLevel(c, us, operand, rest);
      UnaryParses(c, op, us, operand, rest);
      assert MinToks(c, e, 5) + rest == [PrefixToken(op)] + us;
  }

  lemma PrefixEnds(rest: Tokens)
    requires NoCall(rest)
    ensures Ends(5, rest)
  {
  }

  lemma {:induction false} CallMinParses(c: FloatCodec, name: string, args: seq<Expr>, rest: Tokens)
    requires Name(name) && forall i :: 0 <= i < |args| ==> Printable(c, args[i])
    ensures ParseUnary(c, MinToks(c, Call(name, args), 5) + rest) == Ok((Call(name, args), rest))
    decreases args, 1
  {
    hide ParseUnary, ParseArgs, Name, Printable, MinArgToks;
    var end := [TRParen] + rest;
    var us := MinArgToks(c, args) + end;
    assert MinToks(c, Call(name, args), 5) + rest == [TIdent(name), TLParen] + us;
    if args == [] {
      NoMinArgs(c);
      assert us == end;
    } else {
      FirstMinArgToken(c, args, end);
      ArgsMinParse(c, args, rest);
    }
    CallParses(c, name, us, args, rest);
  }

  lemma NoMinArgs(c: FloatCodec)
    ensures MinArgToks(c, []) == []
  {
  }

  lemma FirstMinArgToken(c: FloatCodec, args: seq<Expr>, end: Tokens)
    requires args != [] && Printable(c, args[0])
    ensures MinArgToks(c, args) + end != [] && (MinArgToks(c, args) + end)[0] != TRParen
  {
    FirstMinToken(c, args[0], 0);
    hide MinToks;
    assert (MinArgToks(c, args) + end)[0] == MinToks(c, args[0], 0)[0];
  }

  lemma {:induction false} FirstMinToken(c: FloatCodec, e: Expr, k: nat)
    requires Printable(c, e)
    ensures MinToks(c, e, k)[0] != TRParen
    decreases e
  {
    hide DoubleToks, MinArgToks, OpLevel, LeftLevel;
    match e
    case Binary(op, left, right) => FirstMinToken(c, left, LeftLevel(op));
    case Lit(lit) =>
      if lit.LitDouble? {
        NumberIsOneToken(c, lit.double);
      }
    case _ =>
  }

  lemma {:induction false} ArgsMinParse(c: FloatCodec, args: seq<Expr>, rest: Tokens)
    requires args != [] && forall i :: 0 <= i < |args| ==> Printable(c, args[i])
    ensures ParseArgs(c, MinArgToks(c, args) + ([TRParen] + rest)) == Ok((args, [TRParen] + rest))
    decreases args, 0
  {
    hide ParseOr, ParseArgs, MinToks, Printable;
    var end := [TRParen] + rest;
    var ts := MinArgToks(c, args) + end;
    if |args| == 1 {
      WholeMinParses(c, args[0], end);
      assert args == [args[0]];
      LastArgParses(c, ts, args[0], end);
    } else {
      var more := MinArgToks(c, args[1..]) + end;
      var tail := [TComma] + more;
      assert ts == MinToks(c, args[0], 0) + tail;
      WholeMinParses(c, args[0], tail);
      ArgsMinParse(c, args[1..], rest);
      assert args == [args[0]] + args[1..];
      NextArgParses(c, ts, args[0], more, args[1..], end);
    }
  }

  /** A complete expression: nothing after it continues it. */
  lemma {:induction false} WholeMinParses(c: FloatCodec, e: Expr, rest: Tokens)
    requires Printable(c, e) && Closes(rest)
    ensures ParseOr(c, MinToks(c, e, 0) + rest) == Ok((e, rest))
    decreases e, 11
  {
    hide ParseAt, GoOn, Stops, Printable, MinToks, ParseOr;
    ClosingStops(rest);
    StopsAbove(0, rest);
    MinToksParse(c, e, 0, rest);
    StopsHere(c, 0, e, rest);
    OperandLevel(c, MinToks(c, e, 0) + rest, e, rest);
  }

  // ---------------------------------------------------------------------------------------------
  // The text lexes to the tokens
  // ---------------------------------------------------------------------------------------------

  lemma {:induction false} MinLexes(c: FloatCodec, e: Expr, k: nat, rest: string)
    requires Lexable(c, e) && Boundary(rest)
    ensures LexAll(MinPrint(c, e, k) + rest) == Prepend(MinToks(c, e, k), LexAll(rest))
    decreases e, 2
  {
    hide LexAll, BareToks, BareText, Lexable, LevelOf, Prepend;
    if LevelOf(e) < k {
      var close := ")" + rest;
      var text := BareText(c, e) + close;
      assert MinPrint(c, e, k) + rest == "(" + text;
      var ts := BareToks(c, e);
      SingleLexes(')', rest);
      BareLexes(c, e, close);
      PrependTwice(ts, [TRParen], LexAll(rest));
      SingleLexes('(', text);
      PrependTwice([TLParen], ts + [TRParen], LexAll(rest));
      assert [TLParen] + (ts + [TRParen]) == MinToks(c, e, k);
    } else {
      BareLexes(c, e, rest);
    }
  }

  lemma {:induction false} BareLexes(c: FloatCodec, e: Expr, rest: string)
    requires Lexable(c, e) && Boundary(rest)
    ensures LexAll(BareText(c, e) + rest) == Prepend(BareToks(c, e), LexAll(rest))
    decreases e, 1
  {
    hide LexAll, Prepend, MinPrint, MinToks;
    match e
    case Lit(lit) => LitLexes(c, lit, rest);
    case Column(name) => WordLexes(name, rest);
    case Call(name, args) => CallMinLexes(c, name, args, rest);
    case Unary(op, operand) =>
      var text := MinPrint(c, operand, 5) + rest;
      assert BareText(c, e) + rest == UnaryText(op) + text;
      MinLexes(c, operand, 5, rest);
      PrefixLexes(op, text);
      PrependTwice([PrefixToken(op)], MinToks(c, operand, 5), LexAll(rest));
    case Binary(op, left, right) => BinaryMinLexes(c, op, left, right, rest);
  }

  lemma PrefixLexes(op: UnaryOp, text: string)
    ensures LexAll(UnaryText(op) + text) == Prepend([PrefixToken(op)], LexAll(text))
  {
    hide LexAll, Prepend;
    if op == Neg {
      SingleLexes('-', text);
    } else {
      assert "not " + text == "not" + (" " + text);
      WordLexes("not", " " + text);
      SpaceSkips(text);
    }
  }

  lemma {:induction false} BinaryMinLexes(c: FloatCodec, op: BinaryOp, left: Expr, right: Expr, rest: string)
    requires Lexable(c, left) && Lexable(c, right) && Boundary(rest)
    ensures
      LexAll(BareText(c, Binary(op, left, right)) + rest) == Prepend(BareToks(c, Binary(op, left, right)), LexAll(rest))
    decreases Binary(op, left, right), 0
  {
    hide LexAll, MinToks, MinPrint, OpText, OpToken, Lexable, Prepend, OpLevel, LeftLevel;
    var l, r := MinToks(c, left, LeftLevel(op)), MinToks(c, right, OpLevel(op) + 1);
    var t3 := MinPrint(c, right, OpLevel(op) + 1) + rest;
    var t2 := OpText(op) + " " + t3;
    assert BareText(c, Binary(op, left, right)) + rest == MinPrint(c, left, LeftLevel(op)) + (" " + t2);
    var done := LexAll(rest);
    MinLexes(c, right, OpLevel(op) + 1, rest);
    OpLexes(op, t3);
    PrependTwice([OpToken(op)], r, done);
    SpaceSkips(t2);
    MinLexes(c, left, LeftLevel(op), " " + t2);
    PrependTwice(l, [OpToken(op)] + r, done);
    assert l + ([OpToken(op)] + r) == BareToks(c, Binary(op, left, right));
  }

  lemma {:induction false} CallMinLexes(c: FloatCodec, name: string, args: seq<Expr>, rest: string)
    requires IdentText(name) && forall i :: 0 <= i < |args| ==> Lexable(c, args[i])
    ensures LexAll(BareText(c, Call(name, args)) + rest) == Prepend(BareToks(c, Call(name, args)), LexAll(rest))
    decreases args, 1
  {
    hide LexAll, Prepend, MinArgToks, MinPrintArgs;
    var a := MinArgToks(c, args);
    var t2 := MinPrintArgs(c, args) + (")" + rest);
    assert BareText(c, Call(name, args)) + rest == name + ("(" + t2);
    var done := LexAll(rest);
    SingleLexes(')', rest);
    ArgsMinLex(c, args, rest);
    PrependTwice(a, [TRParen], done);
    SingleLexes('(', t2);
    PrependTwice([TLParen], a + [TRParen], done);
    WordLexes(name, "(" + t2);
    PrependTwice([TIdent(name)], [TLParen] + (a + [TRParen]), done);
    assert [TIdent(name)] + ([TLParen] + (a + [TRParen])) == BareToks(c, Call(name, args));
  }

  lemma {:induction false} ArgsMinLex(c: FloatCodec, args: seq<Expr>, rest: string)
    requires forall i :: 0 <= i < |args| ==> Lexable(c, args[i])
    ensures LexAll(MinPrintArgs(c, args) + (")" + rest)) == Prepend(MinArgToks(c, args), LexAll(")" + rest))
    decreases args, 0
  {
    hide LexAll, Prepend, MinPrint, MinToks;
    var close := ")" + rest;
    var done := LexAll(close);
    PrependTwice([], [], done);
    if args == [] {
      assert "" + close == close;
    } else if |args| == 1 {
      MinLexes(c, args[0], 0, close);
    } else {
      var t2 := MinPrintArgs(c, args[1..]) + close;
      assert MinPrintArgs(c, args) + close == MinPrint(c, args[0], 0) + ("," + (" " + t2));
      ArgsMinLex(c, args[1..], rest);
      SpaceSkips(t2);
      SingleLexes(',', " " + t2);
      MinLexes(c, args[0], 0, "," + (" " + t2));
      var more := MinArgToks(c, args[1..]);
      PrependTwice([TComma], more, done);
      PrependTwice(MinToks(c, args[0], 0), [TComma] + more, done);
      assert MinToks(c, args[0], 0) + ([TComma] + more) == MinArgToks(c, args);
    }
  }

  // ---------------------------------------------------------------------------------------------
  // The whole way
  // ---------------------------------------------------------------------------------------------

  /** Parsing the text with only the needed parentheses gives back every printable tree: chains of one level group to
      the left, comparisons do not chain, and the levels bind in their order. */
  lemma MinimalRoundTrip(c: FloatCodec, e: Expr)
    requires Printable(c, e)
    ensures ParseText(c, MinPrint(c, e, 0)) == Ok(e)
  {
    hide LexAll, ParseOr, ParseText, MinPrint, MinToks, Printable, Lexable;
    PrintableIsLexable(c, e);
    MinLexes(c, e, 0, "");
    LexEmpty();
    assert MinPrint(c, e, 0) + "" == MinPrint(c, e, 0);
    assert MinToks(c, e, 0) + [] == MinToks(c, e, 0);
    WholeMinParses(c, e, []);
    TextParses(c, MinPrint(c, e, 0), MinToks(c, e, 0), e);
  }

  /** Comparisons do not chain: after one of them a second one is refused, whatever the operands. */
  lemma ComparisonsDoNotChain(c: FloatCodec, first: BinaryOp, second: BinaryOp, x: Expr, y: Expr, z: Expr)
    requires OpLevel(first) == 2 && OpLevel(second) == 2
    requires Printable(c, x) && Printable(c, y) && Printable(c, z)
    ensures ParseText(c,
      MinPrint(c, Binary(first, x, y), 0) + (" " + (OpText(second) + " " + MinPrint(c, z, 3)))) == Err(Unexpected)
  {
    hide LexAll, ParseOr, MinPrint, MinToks, Printable, Lexable, Prepend, OpText, OpToken, OpLevel;
    var e := Binary(first, x, y);
    assert Printable(c, e) by { PairIsPrintable(c, first, x, y); }
    var tail := OpText(second) + " " + MinPrint(c, z, 3);
    var rest := [OpToken(second)] + MinToks(c, z, 3);
    PrintableIsLexable(c, e);
    PrintableIsLexable(c, z);
    assert MinPrint(c, z, 3) + "" == MinPrint(c, z, 3) && MinToks(c, z, 3) + [] == MinToks(c, z, 3);
    LexEmpty();
    MinLexes(c, z, 3, "");
    OpLexes(second, MinPrint(c, z, 3));
    SpaceSkips(tail);
    MinLexes(c, e, 0, " " + tail);
    LexedTogether(MinToks(c, e, 0), [OpToken(second)], MinToks(c, z, 3));
    StrayComparison(c, first, second, x, y, MinToks(c, z, 3));
  }

  lemma PairIsPrintable(c: FloatCodec, op: BinaryOp, x: Expr, y: Expr)
    requires Printable(c, x) && Printable(c, y)
    ensures Printable(c, Binary(op, x, y))
  {
  }

  lemma LexedTogether(a: Tokens, b: Tokens, d: Tokens)
    ensures Prepend(a, Prepend(b, Prepend(d, Ok([])))) == Ok(a + (b + d))
  {
    assert d + [] == d;
  }

  /** The parser stops in front of the second comparison. */
  lemma StrayComparison(c: FloatCodec, first: BinaryOp, second: BinaryOp, x: Expr, y: Expr, zs: Tokens)
    requires OpLevel(first) == 2 && OpLevel(second) == 2 && Printable(c, x) && Printable(c, y)
    ensures
      var rest := [OpToken(second)] + zs;
      ParseOr(c, MinToks(c, Binary(first, x, y), 0) + rest) == Ok((Binary(first, x, y), rest))
  {
    hide ParseAt, GoOn, Stops, Ends, MinToks, Printable, OpToken, OpLevel, ParseOr;
    var e, rest := Binary(first, x, y), [OpToken(second)] + zs;
    var us := MinToks(c, y, 3) + rest;
    var mid := [OpToken(first)] + us;
    var ts := MinToks(c, x, 3) + mid;
    BinaryMinToks(c, first, x, y, rest);
    LooseToks(c, e);
    OperandUpTo(c, second, y, zs);
    OperandUpTo(c, first, x, us);
    FirstOperand(c, 2, ts, x, mid);
    OperatorGoesOn(c, first, x, us, y, rest);
    NoWord(c, second, e, zs);
    FirstOperand(c, 1, ts, e, rest);
    FirstOperand(c, 0, ts, e, rest);
    OperandLevel(c, ts, e, rest);
  }

  lemma LooseToks(c: FloatCodec, e: Expr)
    requires LevelOf(e) == 2
    ensures MinToks(c, e, 0) == MinToks(c, e, 2)
  {
  }

  lemma OperandUpTo(c: FloatCodec, op: BinaryOp, e: Expr, us: Tokens)
    requires OpLevel(op) == 2 && Printable(c, e)
    ensures ParseAt(c, 3, MinToks(c, e, 3) + ([OpToken(op)] + us)) == Ok((e, [OpToken(op)] + us))
  {
    hide ParseAt, GoOn, Stops, MinToks, Printable, OpToken;
    OperatorStops(op, us);
    StopsAbove(3, [OpToken(op)] + us);
    MinToksParse(c, e, 3, [OpToken(op)] + us);
    StopsHere(c, 3, e, [OpToken(op)] + us);
  }

  lemma NoWord(c: FloatCodec, op: BinaryOp, e: Expr, us: Tokens)
    requires OpLevel(op) == 2
    ensures GoOn(c, 1, e, [OpToken(op)] + us) == Ok((e, [OpToken(op)] + us))
    ensures GoOn(c, 0, e, [OpToken(op)] + us) == Ok((e, [OpToken(op)] + us))
  {
  }

  // ---------------------------------------------------------------------------------------------
  // Other ways to write the same
  // ---------------------------------------------------------------------------------------------

  /** A text may stand in double quotes, and then it may hold single ones. */
  lemma DoubleQuotes(text: string, rest: string)
    requires '"' !in text
    ensures LexAll("\"" + text + "\"" + rest) == Prepend([TString(text)], LexAll(rest))
  {
    hide LexAll;
    var s := "\"" + text + "\"" + rest;
    assert s[0] == '"' && SkipWs(s) == s;
    var tail := s[1..];
    assert tail == text + "\"" + rest && tail[|text|] == '"';
    assert QuoteAt(tail, '"') == Some(|text|) by {
      assert forall i :: 0 <= i < |text| ==> tail[i] == text[i] && text[i] in text;
    }
    assert tail[..|text|] == text && s[|text| + 2..] == rest;
    LexStep(s, TString(text), rest);
  }

  /** White space of any kind and amount before a token does not matter. */
  lemma {:induction false} BlanksDoNotMatter(blanks: string, rest: string)
    requires forall c :: c in blanks ==> c in [' ', '\t', '\n', '\r', '\U{0b}', '\U{0c}']
    ensures LexAll(blanks + rest) == LexAll(rest)
    decreases |blanks|
  {
    if blanks == "" {
      assert blanks + rest == rest;
    } else {
      var s := blanks + rest;
      assert s[1..] == blanks[1..] + rest && blanks[0] in blanks;
      BlanksDoNotMatter(blanks[1..], rest);
      assert SkipWs(s) == SkipWs(s[1..]);
      assert NextToken(s) == NextToken(s[1..]);
    }
  }

  /** and, or, not, true, false and null are read in any case. */
  lemma WordsInAnyCase(c: FloatCodec, word: string, left: Expr, us: Tokens)
    ensures Ascii.Lower(word) == "or" ==> OrLoop(c, left, [TIdent(word)] + us) == OrLoop(c, left, [TIdent("or")] + us)
    ensures Ascii.Lower(word) == "and" ==>
      AndLoop(c, left, [TIdent(word)] + us) == AndLoop(c, left, [TIdent("and")] + us)
    ensures Ascii.Lower(word) == "not" ==> ParseUnary(c, [TIdent(word)] + us) == ParseUnary(c, [TIdent("not")] + us)
    ensures Ascii.Lower(word) == "true" ==> Constant(word) == Some(LitBool(true))
    ensures Ascii.Lower(word) == "false" ==> Constant(word) == Some(LitBool(false))
    ensures Ascii.Lower(word) == "null" ==> Constant(word) == Some(LitNull)
  {
    hide ParseCmp, ParseAnd, ParsePrimary;
    LowerWords();
    var ts := [TIdent(word)] + us;
    assert ts[1..] == us;
    assert ([TIdent("or")] + us)[1..] == us && ([TIdent("and")] + us)[1..] == us && ([TIdent("not")] + us)[1..] == us;
  }

  lemma LowerWords()
    ensures Ascii.Lower("or") == "or" && Ascii.Lower("and") == "and" && Ascii.Lower("not") == "not"
    ensures Ascii.Lower("true") == "true" && Ascii.Lower("false") == "false" && Ascii.Lower("null") == "null"
  {
  }

  /** For instance x - y - z is (x - y) - z. */
  lemma ChainsGroupLeft(c: FloatCodec)
    ensures
      var x, y, z := Column("x"), Column("y"), Column("z");
      && ParseText(c, "x - y - z") == Ok(Binary(Sub, Binary(Sub, x, y), z))
      && ParseText(c, "x - (y - z)") == Ok(Binary(Sub, x, Binary(Sub, y, z)))
  {
    hide *;
    var x, y, z := Column("x"), Column("y"), Column("z");
    ShortNames(c);
    Difference(c, x, y, "x", "y");
    Difference(c, Binary(Sub, x, y), z, "x - y", "z");
    Difference(c, y, z, "y", "z");
    Difference(c, x, Binary(Sub, y, z), "x", "(y - z)");
    assert "x" + " - " + "y" == "x - y" && "x - y" + " - " + "z" == "x - y - z";
    assert "(" + ("y" + " - " + "z") + ")" == "(y - z)" && "x" + " - " + "(y - z)" == "x - (y - z)";
    MinimalRoundTrip(c, Binary(Sub, Binary(Sub, x, y), z));
    MinimalRoundTrip(c, Binary(Sub, x, Binary(Sub, y, z)));
  }

  lemma Difference(c: FloatCodec, left: Expr, right: Expr, l: string, r: string)
    requires MinPrint(c, left, 3) == l && MinPrint(c, right, 4) == r && Printable(c, left) && Printable(c, right)
    ensures Printable(c, Binary(Sub, left, right))
    ensures forall k :: k <= 3 ==> MinPrint(c, Binary(Sub, left, right), k) == l + " - " + r
    ensures MinPrint(c, Binary(Sub, left, right), 4) == "(" + (l + " - " + r) + ")"
  {
    assert l + " " + "-" + " " + r == l + " - " + r;
  }

  lemma ShortNames(c: FloatCodec)
    ensures Printable(c, Column("x")) && Printable(c, Column("y")) && Printable(c, Column("z"))
    ensures forall k :: k <= 6 ==> MinPrint(c, Column("x"), k) == "x"
    ensures forall k :: k <= 6 ==> MinPrint(c, Column("y"), k) == "y"
    ensures forall k :: k <= 6 ==> MinPrint(c, Column("z"), k) == "z"
  {
    assert |Ascii.Lower("x")| == |Ascii.Lower("y")| == |Ascii.Lower("z")| == 1;
    assert |Ascii.Lower("not")| == 3 && |Ascii.Lower("true")| == |Ascii.Lower("null")| == 4;
    assert |Ascii.Lower("false")| == 5;
  }
}
