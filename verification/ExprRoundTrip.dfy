/**
 Printing and parsing are inverse: for trees without floating-point literals, parsing the printed
 form gives the tree back exactly when the tree is Printable.
 */
module ExprRoundTrip {
  import opened Common
  import opened ExprSyntax
  import opened ExprLexer
  import opened ExprParser
  import opened ExprPrinter
  import Ascii

  // ---------------------------------------------------------------------------------------------
  // Which trees survive
  // ---------------------------------------------------------------------------------------------

  /** Words the parser never reads as a column or function name. */
  predicate Reserved(name: string) {
    Constant(name).Some? || Ascii.EqualFold(name, "not")
  }

  predicate Name(name: string) {
    IdentText(name) && !Reserved(name)
  }

  /** A double whose text lexes as one number and parses back to itself. */
  predicate DoublePrints(c: FloatCodec, d: Double) {
    NumberText(c.format(d)) && '.' in c.format(d) && c.parse(c.format(d)) == Some(d)
  }

  predicate LitPrints(c: FloatCodec, lit: Literal) {
    match lit
    case LitInteger(n) => 0 <= n <= MAX_INT64
    case LitString(s) => '\'' !in s
    case LitDouble(d) => DoublePrints(c, d)
    case _ => true
  }

  predicate Printable(c: FloatCodec, e: Expr) {
    match e
    case Lit(lit) => LitPrints(c, lit)
    case Column(name) => Name(name)
    case Call(name, args) => Name(name) && forall i :: 0 <= i < |args| ==> Printable(c, args[i])
    case Unary(_, operand) => Printable(c, operand)
    case Binary(_, left, right) => Printable(c, left) && Printable(c, right)
  }

  // ---------------------------------------------------------------------------------------------
  // The tokens of the printed form
  // ---------------------------------------------------------------------------------------------

  function OpToken(op: BinaryOp): Token {
    match op
    case Add => TPlus
    case Sub => TMinus
    case Mul => TStar
    case Div => TSlash
    case Eq => TEq
    case NotEq => TNotEq
    case Lt => TLt
    case Lte => TLte
    case Gt => TGt
    case Gte => TGte
    case And => TIdent("and")
    case Or => TIdent("or")
  }

  /** The tokens a double's text lexes to: one number for "2.5", but five tokens for "-1.5e-07". */
  function DoubleToks(c: FloatCodec, d: Double): (ts: Tokens)
    ensures ts != []
  {
    match LexAll(c.format(d))
    case Ok(ts) => if ts == [] then [TNumber(c.format(d))] else ts
    case Err(_) => [TNumber(c.format(d))]
  }

  function LitToks(c: FloatCodec, lit: Literal): (ts: Tokens)
    ensures ts != []
  {
    match lit
    case LitBool(b) => [TIdent(if b then "true" else "false")]
    case LitInteger(n) => [TNumber(PrintInt(n))]
    case LitDouble(d) => DoubleToks(c, d)
    case LitString(s) => [TString(s)]
    case LitNull => [TIdent("null")]
  }

  function Toks(c: FloatCodec, e: Expr): (ts: Tokens)
    ensures ts != []
  {
    match e
    case Lit(lit) => LitToks(c, lit)
    case Column(name) => [TIdent(name)]
    case Call(name, args) => [TIdent(name), TLParen] + ArgToks(c, args) + [TRParen]
    case Unary(op, operand) => [if op == Neg then TMinus else TIdent("not")] + Toks(c, operand)
    case Binary(op, left, right) => [TLParen] + Toks(c, left) + [OpToken(op)] + Toks(c, right) + [TRParen]
  }

  function ArgToks(c: FloatCodec, args: seq<Expr>): Tokens {
    if args == [] then []
    else if |args| == 1 then Toks(c, args[0])
    else Toks(c, args[0]) + [TComma] + ArgToks(c, args[1..])
  }

  /** Text that cannot extend the token before it. */
  predicate Boundary(rest: string) {
    rest == "" || (!IsIdentChar(rest[0]) && !IsNumberChar(rest[0]))
  }

  lemma {:induction false} IdentLenIs(s: string, n: nat)
    requires n <= |s| && (forall i :: 0 <= i < n ==> IsIdentChar(s[i])) && (n == |s| || !IsIdentChar(s[n]))
    ensures IdentLen(s) == n
    decreases n
  {
    if n > 0 {
      IdentLenIs(s[1..], n - 1);
    }
  }

  lemma {:induction false} NumberLenIs(s: string, n: nat)
    requires n <= |s| && (forall i :: 0 <= i < n ==> IsNumberChar(s[i])) && (n == |s| || !IsNumberChar(s[n]))
    ensures NumberLen(s) == n
    decreases n
  {
    if n > 0 {
      NumberLenIs(s[1..], n - 1);
    }
  }

  lemma IdentLexes(name: string, rest: string)
    requires IdentText(name) && (rest == "" || !IsIdentChar(rest[0]))
    ensures NextToken(name + rest) == Tok(TIdent(name), rest)
  {
    var s := name + rest;
    assert s[0] == name[0] && SkipWs(s) == s;
    IdentLenIs(s, |name|);
    assert s[..|name|] == name && s[|name|..] == rest;
    hide QuoteAt, NumberLen, IdentLen, SkipWs, Comparison;
  }

  lemma NumberLexes(text: string, rest: string)
    requires NumberText(text) && (rest == "" || !IsNumberChar(rest[0]))
    ensures NextToken(text + rest) == Tok(TNumber(text), rest)
  {
    var s := text + rest;
    assert IsNumberChar(text[0]);
    assert s[0] == text[0] && SkipWs(s) == s;
    NumberLenIs(s, |text|);
    assert s[..|text|] == text && s[|text|..] == rest;
    hide QuoteAt, NumberLen, IdentLen, SkipWs, Comparison;
  }

  lemma StringLexes(text: string, rest: string)
    requires '\'' !in text
    ensures NextToken("'" + text + "'" + rest) == Tok(TString(text), rest)
  {
    var s := "'" + text + "'" + rest;
    assert s[0] == '\'' && SkipWs(s) == s;
    var tail := s[1..];
    assert tail == text + "'" + rest;
    assert tail[|text|] == '\'';
    var q := QuoteAt(tail, '\'');
    assert q == Some(|text|) by {
      assert forall i :: 0 <= i < |text| ==> tail[i] == text[i] && text[i] in text;
    }
    assert tail[..|text|] == text && s[|text| + 2..] == rest;
  }

  lemma LexStep(s: string, t: Token, rest: string)
    requires NextToken(s) == Tok(t, rest)
    ensures LexAll(s) == Prepend([t], LexAll(rest))
  {
  }

  lemma SpaceSkips(rest: string)
    ensures LexAll(" " + rest) == LexAll(rest)
  {
    assert (" " + rest)[1..] == rest;
    assert SkipWs(" " + rest) == SkipWs(rest);
    assert NextToken(" " + rest) == NextToken(rest);
  }

  lemma SingleLexes(b: char, rest: string)
    requires Single(b).Some?
    ensures LexAll([b] + rest) == Prepend([Single(b).value], LexAll(rest))
  {
    hide LexAll;
    assert ([b] + rest)[1..] == rest;
    assert NextToken([b] + rest) == Tok(Single(b).value, rest);
    LexStep([b] + rest, Single(b).value, rest);
  }

  lemma ComparisonLexes(s: string)
    requires s != "" && (s[0] == '!' || s[0] == '<' || s[0] == '>')
    ensures NextToken(s) == Comparison(s)
  {
    hide QuoteAt, NumberLen, IdentLen;
    assert SkipWs(s) == s;
    assert TokenAt(s) == Comparison(s);
  }

  lemma WideLexes(b: char, rest: string)
    requires b == '!' || b == '<' || b == '>'
    ensures LexAll([b, '='] + rest) ==
      Prepend([if b == '!' then TNotEq else if b == '<' then TLte else TGte], LexAll(rest))
  {
    hide LexAll, NextToken;
    var s := [b, '='] + rest;
    assert s[0] == b && s[1] == '=' && s[2..] == rest;
    ComparisonLexes(s);
    LexStep(s, if b == '!' then TNotEq else if b == '<' then TLte else TGte, rest);
  }

  lemma NarrowLexes(b: char, rest: string)
    requires (b == '<' || b == '>') && (rest == "" || rest[0] != '=')
    ensures LexAll([b] + rest) == Prepend([if b == '<' then TLt else TGt], LexAll(rest))
  {
    hide LexAll, NextToken;
    var s := [b] + rest;
    assert s[0] == b && s[1..] == rest;
    ComparisonLexes(s);
    LexStep(s, if b == '<' then TLt else TGt, rest);
  }

  lemma OpTextLexes(op: BinaryOp, rest: string)
    requires rest != "" && rest[0] == ' '
    ensures LexAll(OpText(op) + rest) == Prepend([OpToken(op)], LexAll(rest))
  {
    hide LexAll;
    match op
    case Add => SingleLexes('+', rest);
    case Sub => SingleLexes('-', rest);
    case Mul => SingleLexes('*', rest);
    case Div => SingleLexes('/', rest);
    case Eq => SingleLexes('=', rest);
    case NotEq => WideLexes('!', rest);
    case Lt => NarrowLexes('<', rest);
    case Lte => WideLexes('<', rest);
    case Gt => NarrowLexes('>', rest);
    case Gte => WideLexes('>', rest);
    case And => WordLexes("and", rest);
    case Or => WordLexes("or", rest);
  }

  lemma WordLexes(word: string, rest: string)
    requires IdentText(word) && (rest == "" || !IsIdentChar(rest[0]))
    ensures LexAll(word + rest) == Prepend([TIdent(word)], LexAll(rest))
  {
    hide LexAll;
    IdentLexes(word, rest);
    LexStep(word + rest, TIdent(word), rest);
  }

  lemma OpLexes(op: BinaryOp, rest: string)
    ensures LexAll(OpText(op) + " " + rest) == Prepend([OpToken(op)], LexAll(rest))
  {
    hide LexAll;
    SpaceSkips(rest);
    OpTextLexes(op, " " + rest);
    assert OpText(op) + " " + rest == OpText(op) + (" " + rest);
  }

  /** What the lexer needs of a tree: any identifiers, any non-negative integers, quote-free strings. */
  ghost predicate Lexable(c: FloatCodec, e: Expr) {
    match e
    case Lit(LitInteger(n)) => 0 <= n
    case Lit(LitString(s)) => '\'' !in s
    case Lit(LitDouble(d)) => DoubleLexes(c, d)
    case Lit(_) => true
    case Column(name) => IdentText(name)
    case Call(name, args) => IdentText(name) && forall i :: 0 <= i < |args| ==> Lexable(c, args[i])
    case Unary(_, operand) => Lexable(c, operand)
    case Binary(_, left, right) => Lexable(c, left) && Lexable(c, right)
  }

  /** Whatever follows, the double's text lexes to its tokens. */
  ghost predicate DoubleLexes(c: FloatCodec, d: Double) {
    forall rest :: Boundary(rest) ==> LexAll(c.format(d) + rest) == Prepend(DoubleToks(c, d), LexAll(rest))
  }

  lemma NumberIsOneToken(c: FloatCodec, d: Double)
    requires NumberText(c.format(d))
    ensures DoubleToks(c, d) == [TNumber(c.format(d))] && DoubleLexes(c, d)
  {
    hide LexAll, NumberText, Boundary;
    var text := c.format(d);
    assert text + "" == text;
    assert Boundary("") by {
      EndIsBoundary();
    }
    NumberTextLexes(text, "");
    LexEmpty();
    assert DoubleToks(c, d) == [TNumber(text)];
    forall rest | Boundary(rest)
      ensures LexAll(text + rest) == Prepend([TNumber(text)], LexAll(rest))
    {
      NumberTextLexes(text, rest);
    }
  }

  lemma EndIsBoundary()
    ensures Boundary("")
  {
  }

  lemma {:induction false} PrintableIsLexable(c: FloatCodec, e: Expr)
    requires Printable(c, e)
    ensures Lexable(c, e)
  {
    match e
    case Lit(lit) =>
      if lit.LitDouble? {
        NumberIsOneToken(c, lit.double);
      }
    case Column(_) =>
    case Call(_, args) =>
      forall i | 0 <= i < |args|
        ensures Lexable(c, args[i])
      {
        PrintableIsLexable(c, args[i]);
      }
    case Unary(_, operand) => PrintableIsLexable(c, operand);
    case Binary(_, left, right) =>
      PrintableIsLexable(c, left);
      PrintableIsLexable(c, right);
  }

  lemma NumberTextLexes(text: string, rest: string)
    requires NumberText(text) && Boundary(rest)
    ensures LexAll(text + rest) == Prepend([TNumber(text)], LexAll(rest))
  {
    hide LexAll;
    NumberLexes(text, rest);
    LexStep(text + rest, TNumber(text), rest);
  }

  lemma StringTextLexes(text: string, rest: string)
    requires '\'' !in text
    ensures LexAll("'" + text + "'" + rest) == Prepend([TString(text)], LexAll(rest))
  {
    hide LexAll;
    StringLexes(text, rest);
    LexStep("'" + text + "'" + rest, TString(text), rest);
  }

  lemma LitLexes(c: FloatCodec, lit: Literal, rest: string)
    requires Lexable(c, Lit(lit)) && Boundary(rest)
    ensures LexAll(PrintLit(c, lit) + rest) == Prepend(LitToks(c, lit), LexAll(rest))
  {
    hide LexAll;
    match lit
    case LitBool(b) => WordLexes(if b then "true" else "false", rest);
    case LitInteger(n) => NumberTextLexes(Digits(n), rest);
    case LitDouble(_) =>
    case LitString(s) => StringTextLexes(s, rest);
    case LitNull => WordLexes("null", rest);
  }

  /** Lexing the printed form, followed by anything that cannot extend it, gives exactly its tokens. */
  lemma {:induction false} PrintLexes(c: FloatCodec, e: Expr, rest: string)
    requires Lexable(c, e) && Boundary(rest)
    ensures LexAll(Print(c, e) + rest) == Prepend(Toks(c, e), LexAll(rest))
    decreases e, 1
  {
    hide LexAll;
    match e
    case Lit(lit) => LitLexes(c, lit, rest);
    case Column(name) => WordLexes(name, rest);
    case Call(name, args) => CallLexes(c, name, args, rest);
    case Unary(op, operand) =>
      var text := Print(c, operand) + rest;
      assert Print(c, e) + rest == UnaryText(op) + text;
      PrintLexes(c, operand, rest);
      var first := if op == Neg then TMinus else TIdent("not");
      if op == Neg {
        SingleLexes('-', text);
      } else {
        assert "not " + text == "not" + (" " + text);
        WordLexes("not", " " + text);
        SpaceSkips(text);
      }
      PrependTwice([first], Toks(c, operand), LexAll(rest));
    case Binary(op, left, right) => BinaryLexes(c, op, left, right, rest);
  }

  lemma {:induction false} BinaryLexes(c: FloatCodec, op: BinaryOp, left: Expr, right: Expr, rest: string)
    requires Lexable(c, left) && Lexable(c, right)
    ensures LexAll(Print(c, Binary(op, left, right)) + rest) == Prepend(Toks(c, Binary(op, left, right)), LexAll(rest))
    decreases Binary(op, left, right), 0
  {
    hide LexAll, Toks, Print, OpText, OpToken, Lexable, Prepend;
    var l, r := Toks(c, left), Toks(c, right);
    var t4 := ")" + rest;
    var t3 := Print(c, right) + t4;
    var t2 := OpText(op) + " " + t3;
    var t1 := Print(c, left) + (" " + t2);
    BinaryPieces(c, op, left, right, rest);
    var done := LexAll(rest);
    SingleLexes(')', rest);
    PrintLexes(c, right, t4);
    PrependTwice(r, [TRParen], done);
    OpLexes(op, t3);
    PrependTwice([OpToken(op)], r + [TRParen], done);
    SpaceSkips(t2);
    PrintLexes(c, left, " " + t2);
    PrependTwice(l, [OpToken(op)] + (r + [TRParen]), done);
    SingleLexes('(', t1);
    PrependTwice([TLParen], l + ([OpToken(op)] + (r + [TRParen])), done);
  }

  /** The text and the tokens of a binary expression, grouped from the right. */
  lemma BinaryPieces(c: FloatCodec, op: BinaryOp, left: Expr, right: Expr, rest: string)
    ensures Print(c, Binary(op, left, right)) + rest ==
      "(" + (Print(c, left) + (" " + (OpText(op) + " " + (Print(c, right) + (")" + rest)))))
    ensures Toks(c, Binary(op, left, right)) ==
      [TLParen] + (Toks(c, left) + ([OpToken(op)] + (Toks(c, right) + [TRParen])))
  {
  }

  lemma {:induction false} CallLexes(c: FloatCodec, name: string, args: seq<Expr>, rest: string)
    requires IdentText(name) && forall i :: 0 <= i < |args| ==> Lexable(c, args[i])
    ensures LexAll(Print(c, Call(name, args)) + rest) == Prepend(Toks(c, Call(name, args)), LexAll(rest))
    decreases Call(name, args), 0
  {
    hide LexAll;
    var a := ArgToks(c, args);
    var t2 := PrintArgs(c, args) + (")" + rest);
    assert Print(c, Call(name, args)) + rest == name + ("(" + t2);
    var done := LexAll(rest);
    SingleLexes(')', rest);
    ArgsLex(c, args, rest);
    PrependTwice(a, [TRParen], done);
    SingleLexes('(', t2);
    PrependTwice([TLParen], a + [TRParen], done);
    WordLexes(name, "(" + t2);
    PrependTwice([TIdent(name)], [TLParen] + (a + [TRParen]), done);
    assert [TIdent(name)] + ([TLParen] + (a + [TRParen])) == Toks(c, Call(name, args));
  }

  lemma {:induction false} ArgsLex(c: FloatCodec, args: seq<Expr>, rest: string)
    requires forall i :: 0 <= i < |args| ==> Lexable(c, args[i])
    ensures LexAll(PrintArgs(c, args) + (")" + rest)) == Prepend(ArgToks(c, args), LexAll(")" + rest))
    decreases args, 0
  {
    hide LexAll;
    var close := ")" + rest;
    if args == [] {
      assert "" + close == close;
      PrependTwice([], [], LexAll(close));
    } else if |args| == 1 {
      PrintLexes(c, args[0], close);
    } else {
      var t2 := PrintArgs(c, args[1..]) + close;
      assert PrintArgs(c, args) + close == Print(c, args[0]) + ("," + (" " + t2));
      ArgsLex(c, args[1..], rest);
      SpaceSkips(t2);
      SingleLexes(',', " " + t2);
      PrintLexes(c, args[0], "," + (" " + t2));
      var more, done := ArgToks(c, args[1..]), LexAll(close);
      PrependTwice([TComma], more, done);
      PrependTwice(Toks(c, args[0]), [TComma] + more, done);
      assert Toks(c, args[0]) + ([TComma] + more) == ArgToks(c, args);
    }
  }

  // ---------------------------------------------------------------------------------------------
  // Parsing the tokens of the printed form
  // ---------------------------------------------------------------------------------------------

  /** Nothing that would turn a trailing column into a call. */
  predicate NoCall(rest: Tokens) {
    rest == [] || rest[0] != TLParen
  }

  predicate StopsMul(rest: Tokens) {
    rest == [] || MulOp(rest[0]).None?
  }

  predicate StopsAdd(rest: Tokens) {
    StopsMul(rest) && (rest == [] || AddOp(rest[0]).None?)
  }

  predicate StopsCmp(rest: Tokens) {
    StopsAdd(rest) && (rest == [] || CmpOp(rest[0]).None?)
  }

  predicate StopsAnd(rest: Tokens) {
    StopsCmp(rest) && !IsWord(rest, "and")
  }

  /** What follows a complete expression: the end, a closing parenthesis or a comma. */
  predicate Closes(rest: Tokens) {
    rest == [] || rest[0] == TRParen || rest[0] == TComma
  }

  lemma WordsDiffer()
    ensures !Ascii.EqualFold("and", "or") && !Ascii.EqualFold("or", "and")
    ensures Ascii.EqualFold("and", "and") && Ascii.EqualFold("or", "or") && Ascii.EqualFold("not", "not")
  {
    assert Ascii.Lower("and")[0] == 'a' && Ascii.Lower("or")[0] == 'o';
  }

  lemma UpToMul(c: FloatCodec, ts: Tokens, e: Expr, rest: Tokens)
    requires ParseUnary(c, ts) == Ok((e, rest)) && StopsMul(rest)
    ensures ParseMul(c, ts) == Ok((e, rest))
  {
    hide ParseUnary;
  }

  lemma UpToAdd(c: FloatCodec, ts: Tokens, e: Expr, rest: Tokens)
    requires ParseUnary(c, ts) == Ok((e, rest)) && StopsAdd(rest)
    ensures ParseAdd(c, ts) == Ok((e, rest))
  {
    UpToMul(c, ts, e, rest);
    hide ParseMul;
  }

  lemma UpToCmp(c: FloatCodec, ts: Tokens, e: Expr, rest: Tokens)
    requires ParseUnary(c, ts) == Ok((e, rest)) && StopsCmp(rest)
    ensures ParseCmp(c, ts) == Ok((e, rest))
  {
    UpToAdd(c, ts, e, rest);
    hide ParseAdd;
  }

  lemma UpToAnd(c: FloatCodec, ts: Tokens, e: Expr, rest: Tokens)
    requires ParseUnary(c, ts) == Ok((e, rest)) && StopsAnd(rest)
    ensures ParseAnd(c, ts) == Ok((e, rest))
  {
    UpToCmp(c, ts, e, rest);
    hide ParseCmp;
  }

  lemma UpToOr(c: FloatCodec, ts: Tokens, e: Expr, rest: Tokens)
    requires ParseUnary(c, ts) == Ok((e, rest)) && Closes(rest)
    ensures ParseOr(c, ts) == Ok((e, rest))
  {
    UpToAnd(c, ts, e, rest);
    hide ParseAnd;
  }

  /** A binary operator between two operands, up to the closing parenthesis, at its own level. */
  lemma BinaryParses(c: FloatCodec, op: BinaryOp, ts: Tokens, left: Expr, us: Tokens, right: Expr, rest: Tokens)
    requires ParseUnary(c, ts) == Ok((left, [OpToken(op)] + us))
    requires ParseUnary(c, us) == Ok((right, [TRParen] + rest))
    ensures ParseOr(c, ts) == Ok((Binary(op, left, right), [TRParen] + rest))
  {
    hide ParseUnary, ParseOr;
    var mid, end := [OpToken(op)] + us, [TRParen] + rest;
    assert mid[0] == OpToken(op) && mid[1..] == us;
    match op
    case Mul => MulParses(c, op, ts, left, us, right, end);
    case Div => MulParses(c, op, ts, left, us, right, end);
    case Add => AddParses(c, op, ts, left, us, right, end);
    case Sub => AddParses(c, op, ts, left, us, right, end);
    case And => AndParses(c, ts, left, us, right, end);
    case Or => OrParses(c, ts, left, us, right, end);
    case _ => CmpParses(c, op, ts, left, us, right, end);
  }

  lemma MulParses(c: FloatCodec, op: BinaryOp, ts: Tokens, left: Expr, us: Tokens, right: Expr, end: Tokens)
    requires (op == Mul || op == Div) && Closes(end)
    requires ParseUnary(c, ts) == Ok((left, [OpToken(op)] + us)) && ParseUnary(c, us) == Ok((right, end))
    ensures ParseOr(c, ts) == Ok((Binary(op, left, right), end))
  {
    hide ParseUnary;
    var mid := [OpToken(op)] + us;
    assert mid[0] == OpToken(op) && mid[1..] == us;
    assert MulLoop(c, left, mid) == MulLoop(c, Binary(op, left, right), end);
    assert ParseMul(c, ts) == Ok((Binary(op, left, right), end));
    LevelsAboveMul(c, ts, Binary(op, left, right), end);
  }

  lemma LevelsAboveMul(c: FloatCodec, ts: Tokens, e: Expr, end: Tokens)
    requires ParseMul(c, ts) == Ok((e, end)) && Closes(end)
    ensures ParseOr(c, ts) == Ok((e, end))
  {
    hide ParseMul;
    assert ParseAdd(c, ts) == Ok((e, end));
    LevelsAboveAdd(c, ts, e, end);
  }

  lemma LevelsAboveAdd(c: FloatCodec, ts: Tokens, e: Expr, end: Tokens)
    requires ParseAdd(c, ts) == Ok((e, end)) && Closes(end)
    ensures ParseOr(c, ts) == Ok((e, end))
  {
    hide ParseAdd;
    assert ParseCmp(c, ts) == Ok((e, end));
    LevelsAboveCmp(c, ts, e, end);
  }

  lemma LevelsAboveCmp(c: FloatCodec, ts: Tokens, e: Expr, end: Tokens)
    requires ParseCmp(c, ts) == Ok((e, end)) && Closes(end)
    ensures ParseOr(c, ts) == Ok((e, end))
  {
    hide ParseCmp;
    assert ParseAnd(c, ts) == Ok((e, end));
  }

  lemma AddParses(c: FloatCodec, op: BinaryOp, ts: Tokens, left: Expr, us: Tokens, right: Expr, end: Tokens)
    requires (op == Add || op == Sub) && Closes(end)
    requires ParseUnary(c, ts) == Ok((left, [OpToken(op)] + us)) && ParseUnary(c, us) == Ok((right, end))
    ensures ParseOr(c, ts) == Ok((Binary(op, left, right), end))
  {
    hide ParseUnary;
    var mid := [OpToken(op)] + us;
    assert mid[0] == OpToken(op) && mid[1..] == us;
    UpToMul(c, ts, left, mid);
    UpToMul(c, us, right, end);
    hide ParseMul;
    assert AddLoop(c, left, mid) == AddLoop(c, Binary(op, left, right), end);
    assert ParseAdd(c, ts) == Ok((Binary(op, left, right), end));
    LevelsAboveAdd(c, ts, Binary(op, left, right), end);
  }

  lemma CmpParses(c: FloatCodec, op: BinaryOp, ts: Tokens, left: Expr, us: Tokens, right: Expr, end: Tokens)
    requires CmpOp(OpToken(op)) == Some(op) && Closes(end)
    requires ParseUnary(c, ts) == Ok((left, [OpToken(op)] + us)) && ParseUnary(c, us) == Ok((right, end))
    ensures ParseOr(c, ts) == Ok((Binary(op, left, right), end))
  {
    hide ParseUnary;
    var mid := [OpToken(op)] + us;
    assert mid[0] == OpToken(op) && mid[1..] == us;
    UpToAdd(c, ts, left, mid);
    UpToAdd(c, us, right, end);
    hide ParseAdd;
    assert ParseCmp(c, ts) == Ok((Binary(op, left, right), end));
    LevelsAboveCmp(c, ts, Binary(op, left, right), end);
  }

  lemma AndParses(c: FloatCodec, ts: Tokens, left: Expr, us: Tokens, right: Expr, end: Tokens)
    requires Closes(end)
    requires ParseUnary(c, ts) == Ok((left, [TIdent("and")] + us)) && ParseUnary(c, us) == Ok((right, end))
    ensures ParseOr(c, ts) == Ok((Binary(And, left, right), end))
  {
    hide ParseUnary;
    WordsDiffer();
    var mid := [TIdent("and")] + us;
    assert mid[0] == TIdent("and") && mid[1..] == us;
    UpToCmp(c, ts, left, mid);
    UpToCmp(c, us, right, end);
    hide ParseCmp;
    assert AndLoop(c, left, mid) == AndLoop(c, Binary(And, left, right), end);
    assert ParseAnd(c, ts) == Ok((Binary(And, left, right), end));
  }

  lemma OrParses(c: FloatCodec, ts: Tokens, left: Expr, us: Tokens, right: Expr, end: Tokens)
    requires Closes(end)
    requires ParseUnary(c, ts) == Ok((left, [TIdent("or")] + us)) && ParseUnary(c, us) == Ok((right, end))
    ensures ParseOr(c, ts) == Ok((Binary(Or, left, right), end))
  {
    hide ParseUnary;
    WordsDiffer();
    var mid := [TIdent("or")] + us;
    assert mid[0] == TIdent("or") && mid[1..] == us;
    UpToAnd(c, ts, left, mid);
    UpToAnd(c, us, right, end);
    hide ParseAnd;
    assert OrLoop(c, left, mid) == OrLoop(c, Binary(Or, left, right), end);
  }

  lemma LitParses(c: FloatCodec, lit: Literal, rest: Tokens)
    requires LitPrints(c, lit)
    ensures ParseUnary(c, LitToks(c, lit) + rest) == Ok((Lit(lit), rest))
  {
    hide Ascii.Lower, ParseOr;
    if lit.LitDouble? {
      NumberIsOneToken(c, lit.double);
    }
    hide DoubleToks;
    var ts := LitToks(c, lit) + rest;
    assert |LitToks(c, lit)| == 1 && ts[0] == LitToks(c, lit)[0] && ts[1..] == rest;
    match lit
    case LitInteger(n) =>
      DigitsRoundTrip(n);
      assert '.' !in Digits(n) by {
        assert forall d :: d in Digits(n) ==> IsDigit(d);
      }
    case LitBool(b) => ConstantsAreKnown();
    case LitNull => ConstantsAreKnown();
    case _ =>
  }

  lemma ConstantsAreKnown()
    ensures Constant("true") == Some(LitBool(true)) && Constant("false") == Some(LitBool(false))
    ensures Constant("null") == Some(LitNull)
    ensures !Ascii.EqualFold("true", "not") && !Ascii.EqualFold("false", "not") && !Ascii.EqualFold("null", "not")
  {
    assert Ascii.Lower("true")[0] == 't' && Ascii.Lower("false")[0] == 'f' && Ascii.Lower("null")[1] == 'u';
    assert Ascii.Lower("not")[0] == 'n' && Ascii.Lower("not")[1] == 'o' && Ascii.Lower("null")[0] == 'n';
  }

  lemma ColumnParses(c: FloatCodec, name: string, rest: Tokens)
    requires Name(name) && NoCall(rest)
    ensures ParseUnary(c, [TIdent(name)] + rest) == Ok((Column(name), rest))
  {
    var ts := [TIdent(name)] + rest;
    assert ts[0] == TIdent(name) && ts[1..] == rest;
  }

  lemma UnaryParses(c: FloatCodec, op: UnaryOp, us: Tokens, operand: Expr, rest: Tokens)
    requires ParseUnary(c, us) == Ok((operand, rest))
    ensures ParseUnary(c, [if op == Neg then TMinus else TIdent("not")] + us) == Ok((Unary(op, operand), rest))
  {
    WordsDiffer();
    var ts := [if op == Neg then TMinus else TIdent("not")] + us;
    assert ts[1..] == us;
  }

  /** The tokens of a printable tree parse back to the tree, at the operand level. */
  lemma {:induction false} ToksParse(c: FloatCodec, e: Expr, rest: Tokens)
    requires Printable(c, e) && NoCall(rest)
    ensures ParseUnary(c, Toks(c, e) + rest) == Ok((e, rest))
    decreases e, 1
  {
    hide ParseUnary;
    var ts := Toks(c, e) + rest;
    match e
    case Lit(lit) => LitParses(c, lit, rest);
    case Column(name) => ColumnParses(c, name, rest);
    case Call(name, args) => CallToksParse(c, name, args, rest);
    case Unary(op, operand) =>
      ToksParse(c, operand, rest);
      UnaryParses(c, op, Toks(c, operand) + rest, operand, rest);
      assert ts == [if op == Neg then TMinus else TIdent("not")] + (Toks(c, operand) + rest);
    case Binary(op, left, right) => BinaryToksParse(c, op, left, right, rest);
  }

  lemma {:induction false} BinaryToksParse(c: FloatCodec, op: BinaryOp, left: Expr, right: Expr, rest: Tokens)
    requires Printable(c, left) && Printable(c, right)
    ensures ParseUnary(c, Toks(c, Binary(op, left, right)) + rest) == Ok((Binary(op, left, right), rest))
    decreases Binary(op, left, right), 0
  {
    hide ParseUnary, ParseOr, Printable, OpToken;
    var end := [TRParen] + rest;
    var us := Toks(c, right) + end;
    var mid := [OpToken(op)] + us;
    var inner := Toks(c, left) + mid;
    var ts := Toks(c, Binary(op, left, right)) + rest;
    assert ts == [TLParen] + inner;
    assert ts[0] == TLParen && ts[1..] == inner;
    OperatorIsNoCall(op, us);
    ToksParse(c, left, mid);
    ToksParse(c, right, end);
    BinaryParses(c, op, inner, left, us, right, rest);
    ParenParses(c, inner, Binary(op, left, right), rest);
  }

  lemma OperatorIsNoCall(op: BinaryOp, us: Tokens)
    ensures NoCall([OpToken(op)] + us)
  {
  }

  lemma ParenParses(c: FloatCodec, inner: Tokens, e: Expr, rest: Tokens)
    requires ParseOr(c, inner) == Ok((e, [TRParen] + rest))
    ensures ParseUnary(c, [TLParen] + inner) == Ok((e, rest))
  {
    hide ParseOr;
    var ts := [TLParen] + inner;
    assert ts[0] == TLParen && ts[1..] == inner;
    assert ([TRParen] + rest)[1..] == rest;
  }

  lemma {:induction false} CallToksParse(c: FloatCodec, name: string, args: seq<Expr>, rest: Tokens)
    requires Name(name) && forall i :: 0 <= i < |args| ==> Printable(c, args[i])
    ensures ParseUnary(c, Toks(c, Call(name, args)) + rest) == Ok((Call(name, args), rest))
    decreases Call(name, args), 0
  {
    hide ParseUnary, ParseArgs, Name, Printable, ArgToks;
    var end := [TRParen] + rest;
    var us := ArgToks(c, args) + end;
    var ts := Toks(c, Call(name, args)) + rest;
    assert ts == [TIdent(name), TLParen] + us;
    assert ts[0] == TIdent(name) && ts[1] == TLParen && ts[2..] == us;
    assert end[1..] == rest;
    if args == [] {
      NoArgToks(c);
      assert us == end;
    } else {
      FirstArgToken(c, args, end);
      ArgToksParse(c, args, rest);
    }
    CallParses(c, name, us, args, rest);
  }

  lemma NoArgToks(c: FloatCodec)
    ensures ArgToks(c, []) == []
  {
  }

  lemma CallParses(c: FloatCodec, name: string, us: Tokens, args: seq<Expr>, rest: Tokens)
    requires Name(name) && us != []
    requires if us[0] == TRParen then args == [] && us == [TRParen] + rest
             else ParseArgs(c, us) == Ok((args, [TRParen] + rest))
    ensures ParseUnary(c, [TIdent(name), TLParen] + us) == Ok((Call(name, args), rest))
  {
    hide ParseArgs;
    var ts := [TIdent(name), TLParen] + us;
    assert ts[0] == TIdent(name) && ts[1] == TLParen && ts[2..] == us;
    assert ([TRParen] + rest)[1..] == rest;
    assert ParseCallRest(c, name, us) == Ok((Call(name, args), rest));
  }

  lemma FirstArgToken(c: FloatCodec, args: seq<Expr>, end: Tokens)
    requires args != [] && Printable(c, args[0])
    ensures (ArgToks(c, args) + end) != [] && (ArgToks(c, args) + end)[0] != TRParen
  {
    if args[0].Lit? && args[0].lit.LitDouble? {
      NumberIsOneToken(c, args[0].lit.double);
    }
    hide DoubleToks;
    assert Toks(c, args[0])[0] != TRParen by {
      match args[0]
      case Binary(op, left, right) => assert Toks(c, args[0])[0] == TLParen;
      case _ =>
    }
    assert (ArgToks(c, args) + end)[0] == Toks(c, args[0])[0];
  }

  lemma LastArgParses(c: FloatCodec, ts: Tokens, arg: Expr, end: Tokens)
    requires ParseOr(c, ts) == Ok((arg, end)) && end != [] && end[0] == TRParen
    ensures ParseArgs(c, ts) == Ok(([arg], end))
  {
    hide ParseOr;
  }

  lemma NextArgParses(c: FloatCodec, ts: Tokens, arg: Expr, us: Tokens, args: seq<Expr>, end: Tokens)
    requires ParseOr(c, ts) == Ok((arg, [TComma] + us)) && ParseArgs(c, us) == Ok((args, end))
    ensures ParseArgs(c, ts) == Ok(([arg] + args, end))
  {
    hide ParseOr;
    assert ([TComma] + us)[1..] == us;
  }

  lemma {:induction false} ArgToksParse(c: FloatCodec, args: seq<Expr>, rest: Tokens)
    requires args != [] && forall i :: 0 <= i < |args| ==> Printable(c, args[i])
    ensures ParseArgs(c, ArgToks(c, args) + ([TRParen] + rest)) == Ok((args, [TRParen] + rest))
    decreases args, 0
  {
    hide ParseUnary, ParseOr, ParseArgs, Toks, Printable;
    var end := [TRParen] + rest;
    var ts := ArgToks(c, args) + end;
    if |args| == 1 {
      ToksParse(c, args[0], end);
      UpToOr(c, ts, args[0], end);
      assert args == [args[0]];
      LastArgParses(c, ts, args[0], end);
    } else {
      var more := ArgToks(c, args[1..]) + end;
      var tail := [TComma] + more;
      assert ts == Toks(c, args[0]) + tail;
      ToksParse(c, args[0], tail);
      UpToOr(c, ts, args[0], tail);
      ArgToksParse(c, args[1..], rest);
      assert args == [args[0]] + args[1..];
      NextArgParses(c, ts, args[0], more, args[1..], end);
    }
  }

  lemma TextParses(c: FloatCodec, input: string, ts: Tokens, e: Expr)
    requires LexAll(input) == Ok(ts) && ParseOr(c, ts) == Ok((e, []))
    ensures ParseText(c, input) == Ok(e)
  {
    hide LexAll, ParseOr;
  }

  lemma LexEmpty()
    ensures LexAll("") == Ok([])
  {
  }

  /** Parsing the printed form of a printable tree gives the tree back, through the lexer and all
      precedence levels. */
  lemma RoundTrip(c: FloatCodec, e: Expr)
    requires Printable(c, e)
    ensures ParseText(c, Print(c, e)) == Ok(e)
  {
    hide LexAll, ParseUnary, ParseOr, ParseText, Print, Toks, Printable;
    PrintableIsLexable(c, e);
    PrintLexes(c, e, "");
    LexEmpty();
    assert Print(c, e) + "" == Print(c, e);
    assert Toks(c, e) + [] == Toks(c, e);
    ToksParse(c, e, []);
    UpToOr(c, Toks(c, e), e, []);
    TextParses(c, Print(c, e), Toks(c, e), e);
  }
}
