/**
 What the expression parser produces from any token sequence (libs/pipeline-expression/parser.go): trees with
 parser-made leaves, whose string and floating-point literals are those of the tokens, in order.
 */
module ExprMarks {
  import opened Common
  import opened ExprSyntax
  import opened ExprLexer
  import opened ExprParser
  import opened ExprRoundTrip
  import Ascii

  // ---------------------------------------------------------------------------------------------
  // What the parser produces
  // ---------------------------------------------------------------------------------------------

  /** A literal that the parser carries over: a string, or what the text of a number with a point parses to. */
  datatype Mark = StringMark(text: string) | DoubleMark(value: Option<Double>)

  /** The marks of a token sequence, in order. */
  function MarkToks(c: FloatCodec, ts: Tokens): seq<Mark> {
    if ts == [] then [] else MarkOf(c, ts[0]) + MarkToks(c, ts[1..])
  }

  function MarkOf(c: FloatCodec, t: Token): seq<Mark> {
    match t
    case TString(text) => [StringMark(text)]
    case TNumber(text) => if '.' in text then [DoubleMark(c.parse(text))] else []
    case _ => []
  }

  /** The marks of a tree, in printing order. */
  function Marks(e: Expr): seq<Mark> {
    match e
    case Lit(LitString(s)) => [StringMark(s)]
    case Lit(LitDouble(d)) => [DoubleMark(Some(d))]
    case Lit(_) => []
    case Column(_) => []
    case Call(_, args) => ArgMarks(args)
    case Unary(_, operand) => Marks(operand)
    case Binary(_, left, right) => Marks(left) + Marks(right)
  }

  function ArgMarks(args: seq<Expr>): seq<Mark> {
    if args == [] then [] else Marks(args[0]) + ArgMarks(args[1..])
  }

  predicate Lexical(ts: Tokens) {
    forall i :: 0 <= i < |ts| && ts[i].TIdent? ==> IdentText(ts[i].text)
  }

  /** Leaves as the parser makes them; nothing is said about their texts. */
  predicate ParserMade(e: Expr) {
    match e
    case Lit(LitInteger(n)) => 0 <= n <= MAX_INT64
    case Lit(_) => true
    case Column(name) => Name(name)
    case Call(name, args) => Name(name) && forall i :: 0 <= i < |args| ==> ParserMade(args[i])
    case Unary(_, operand) => ParserMade(operand)
    case Binary(_, left, right) => ParserMade(left) && ParserMade(right)
  }

  /** A parse that started with the marks `done` already read. */
  ghost predicate Good(c: FloatCodec, done: seq<Mark>, ts: Tokens, r: Parsed<Expr>) {
    r.Ok? ==>
      && Lexical(r.value.1) && ParserMade(r.value.0)
      && done + MarkToks(c, ts) == Marks(r.value.0) + MarkToks(c, r.value.1)
  }

  lemma TailTokens(c: FloatCodec, ts: Tokens)
    requires ts != [] && Lexical(ts)
    ensures Lexical(ts[1..]) && MarkToks(c, ts) == MarkOf(c, ts[0]) + MarkToks(c, ts[1..])
  {
    forall i | 0 <= i < |ts[1..]| && ts[1..][i].TIdent?
      ensures IdentText(ts[1..][i].text)
    {
      assert ts[1..][i] == ts[i + 1];
    }
  }

  lemma MadeOfParts(op: BinaryOp, left: Expr, right: Expr)
    requires ParserMade(left) && ParserMade(right)
    ensures ParserMade(Binary(op, left, right)) && Marks(Binary(op, left, right)) == Marks(left) + Marks(right)
  {
  }

  lemma {:induction false} OrGood(c: FloatCodec, ts: Tokens)
    requires Lexical(ts)
    ensures Good(c, [], ts, ParseOr(c, ts))
    decreases |ts|, 8
  {
    hide ParseAnd, OrLoop, MarkToks, Marks, ParserMade, Lexical;
    AndGood(c, ts);
    match ParseAnd(c, ts)
    case Err(_) =>
    case Ok((left, rest)) => OrLoopGood(c, left, rest);
  }

  lemma {:induction false} OrLoopGood(c: FloatCodec, left: Expr, ts: Tokens)
    requires Lexical(ts) && ParserMade(left)
    ensures Good(c, Marks(left), ts, OrLoop(c, left, ts))
    decreases |ts|, 7
  {
    hide ParseAnd, MarkToks, Lexical, Marks, ParserMade;
    if IsWord(ts, "or") {
      TailTokens(c, ts);
      AndGood(c, ts[1..]);
      match ParseAnd(c, ts[1..])
      case Err(_) =>
      case Ok((right, rest)) =>
        MadeOfParts(Or, left, right);
        OrLoopGood(c, Binary(Or, left, right), rest);
    }
  }

  lemma {:induction false} AndGood(c: FloatCodec, ts: Tokens)
    requires Lexical(ts)
    ensures Good(c, [], ts, ParseAnd(c, ts))
    decreases |ts|, 6
  {
    hide ParseCmp, AndLoop, MarkToks, Marks, ParserMade, Lexical;
    CmpGood(c, ts);
    match ParseCmp(c, ts)
    case Err(_) =>
    case Ok((left, rest)) => AndLoopGood(c, left, rest);
  }

  lemma {:induction false} AndLoopGood(c: FloatCodec, left: Expr, ts: Tokens)
    requires Lexical(ts) && ParserMade(left)
    ensures Good(c, Marks(left), ts, AndLoop(c, left, ts))
    decreases |ts|, 6
  {
    hide ParseCmp, MarkToks, Lexical, Marks, ParserMade;
    if IsWord(ts, "and") {
      TailTokens(c, ts);
      CmpGood(c, ts[1..]);
      match ParseCmp(c, ts[1..])
      case Err(_) =>
      case Ok((right, rest)) =>
        MadeOfParts(And, left, right);
        AndLoopGood(c, Binary(And, left, right), rest);
    }
  }

  lemma {:induction false} CmpGood(c: FloatCodec, ts: Tokens)
    requires Lexical(ts)
    ensures Good(c, [], ts, ParseCmp(c, ts))
    decreases |ts|, 5
  {
    hide ParseAdd, MarkToks, Lexical;
    AddGood(c, ts);
    match ParseAdd(c, ts)
    case Err(_) =>
    case Ok((left, rest)) =>
      if rest != [] && CmpOp(rest[0]).Some? {
        TailTokens(c, rest);
        AddGood(c, rest[1..]);
      }
  }

  lemma {:induction false} AddGood(c: FloatCodec, ts: Tokens)
    requires Lexical(ts)
    ensures Good(c, [], ts, ParseAdd(c, ts))
    decreases |ts|, 4
  {
    hide ParseMul, AddLoop, MarkToks, Marks, ParserMade, Lexical;
    MulGood(c, ts);
    match ParseMul(c, ts)
    case Err(_) =>
    case Ok((left, rest)) => AddLoopGood(c, left, rest);
  }

  lemma {:induction false} AddLoopGood(c: FloatCodec, left: Expr, ts: Tokens)
    requires Lexical(ts) && ParserMade(left)
    ensures Good(c, Marks(left), ts, AddLoop(c, left, ts))
    decreases |ts|, 4
  {
    hide ParseMul, MarkToks, Lexical, Marks, ParserMade;
    if ts != [] && AddOp(ts[0]).Some? {
      TailTokens(c, ts);
      MulGood(c, ts[1..]);
      match ParseMul(c, ts[1..])
      case Err(_) =>
      case Ok((right, rest)) =>
        MadeOfParts(AddOp(ts[0]).value, left, right);
        AddLoopGood(c, Binary(AddOp(ts[0]).value, left, right), rest);
    }
  }

  lemma {:induction false} MulGood(c: FloatCodec, ts: Tokens)
    requires Lexical(ts)
    ensures Good(c, [], ts, ParseMul(c, ts))
    decreases |ts|, 3
  {
    hide ParseUnary, MulLoop, MarkToks, Marks, ParserMade, Lexical;
    UnaryGood(c, ts);
    match ParseUnary(c, ts)
    case Err(_) =>
    case Ok((left, rest)) => MulLoopGood(c, left, rest);
  }

  lemma {:induction false} MulLoopGood(c: FloatCodec, left: Expr, ts: Tokens)
    requires Lexical(ts) && ParserMade(left)
    ensures Good(c, Marks(left), ts, MulLoop(c, left, ts))
    decreases |ts|, 3
  {
    hide ParseUnary, MarkToks, Lexical, Marks, ParserMade;
    if ts != [] && MulOp(ts[0]).Some? {
      TailTokens(c, ts);
      UnaryGood(c, ts[1..]);
      match ParseUnary(c, ts[1..])
      case Err(_) =>
      case Ok((right, rest)) =>
        MadeOfParts(MulOp(ts[0]).value, left, right);
        MulLoopGood(c, Binary(MulOp(ts[0]).value, left, right), rest);
    }
  }

  lemma {:induction false} UnaryGood(c: FloatCodec, ts: Tokens)
    requires Lexical(ts)
    ensures Good(c, [], ts, ParseUnary(c, ts))
    decreases |ts|, 2
  {
    hide ParsePrimary, MarkToks, Lexical;
    if ts != [] && (ts[0] == TMinus || IsWord(ts, "not")) {
      TailTokens(c, ts);
      UnaryGood(c, ts[1..]);
    } else {
      PrimaryGood(c, ts);
    }
  }

  lemma {:induction false} PrimaryGood(c: FloatCodec, ts: Tokens)
    requires Lexical(ts) && !IsWord(ts, "not")
    ensures Good(c, [], ts, ParsePrimary(c, ts))
    decreases |ts|, 1
  {
    hide ParseOr, ParseCallRest, ParsePrimary, MarkToks, Marks, ParserMade, Lexical, Good, IsWord, Constant;
    if ts == [] {
      LeafGood(c, ts);
    } else {
      TailTokens(c, ts);
      match ts[0]
      case TLParen =>
        OrGood(c, ts[1..]);
        ParenGood(c, ts);
      case TIdent(name) =>
        FirstIdent(ts);
        if Constant(name).None? && |ts| > 1 && ts[1] == TLParen {
          TailTokens(c, ts[1..]);
          assert ts[1..][1..] == ts[2..];
          NameGood(ts, name);
          CallGood(c, name, ts[2..]);
          CalledGood(c, ts, name);
        } else {
          LeafGood(c, ts);
        }
      case _ => LeafGood(c, ts);
    }
  }

  lemma NameGood(ts: Tokens, name: string)
    requires ts != [] && ts[0] == TIdent(name) && IdentText(name) && Constant(name).None? && !IsWord(ts, "not")
    ensures Name(name)
  {
  }

  lemma ParenGood(c: FloatCodec, ts: Tokens)
    requires Lexical(ts) && ts != [] && ts[0] == TLParen && Good(c, [], ts[1..], ParseOr(c, ts[1..]))
    ensures Good(c, [], ts, ParsePrimary(c, ts))
  {
    hide ParseOr, MarkToks, Marks, ParserMade, Lexical;
    TailTokens(c, ts);
    match ParseOr(c, ts[1..])
    case Err(_) =>
    case Ok((inner, rest)) =>
      if rest != [] {
        TailTokens(c, rest);
      }
  }

  lemma CalledGood(c: FloatCodec, ts: Tokens, name: string)
    requires Lexical(ts) && |ts| > 1 && ts[0] == TIdent(name) && ts[1] == TLParen && Constant(name).None?
    requires Good(c, [], ts[2..], ParseCallRest(c, name, ts[2..]))
    ensures Good(c, [], ts, ParsePrimary(c, ts))
  {
    hide ParseCallRest, MarkToks, Marks, ParserMade, Lexical, Constant;
    TailTokens(c, ts);
    TailTokens(c, ts[1..]);
    assert ts[1..][1..] == ts[2..];
  }

  lemma LeafGood(c: FloatCodec, ts: Tokens)
    requires Lexical(ts) && !IsWord(ts, "not") && (ts != [] ==> !ts[0].TLParen?)
    requires ts != [] && ts[0].TIdent? && Constant(ts[0].text).None? ==> |ts| <= 1 || ts[1] != TLParen
    ensures Good(c, [], ts, ParsePrimary(c, ts))
  {
    hide ParseOr, ParseCallRest, MarkToks, Lexical, Constant, IsWord, Name, IdentText;
    if ts != [] {
      TailTokens(c, ts);
      if ts[0].TIdent? {
        FirstIdent(ts);
        ConstantIsPlain(ts[0].text);
        if Constant(ts[0].text).None? {
          NameGood(ts, ts[0].text);
        }
      }
    }
  }

  lemma ConstantIsPlain(name: string)
    ensures Constant(name).Some? ==> Constant(name).value.LitBool? || Constant(name).value.LitNull?
  {
    hide Ascii.EqualFold;
  }

  lemma FirstIdent(ts: Tokens)
    requires Lexical(ts) && ts != [] && ts[0].TIdent?
    ensures IdentText(ts[0].text)
  {
  }

  lemma {:induction false} CallGood(c: FloatCodec, name: string, ts: Tokens)
    requires Lexical(ts) && Name(name)
    ensures Good(c, [], ts, ParseCallRest(c, name, ts))
    decreases |ts|, 10
  {
    hide ParseArgs, MarkToks, Lexical, Name;
    if ts != [] && ts[0] == TRParen {
      TailTokens(c, ts);
      assert [] + ([] + MarkToks(c, ts[1..])) == ArgMarks([]) + MarkToks(c, ts[1..]);
    } else {
      ArgsGood(c, ts);
      match ParseArgs(c, ts)
      case Err(_) =>
      case Ok((args, rest)) =>
        if rest != [] {
          TailTokens(c, rest);
        }
    }
  }

  lemma AppendMarks(a: seq<Mark>, b: seq<Mark>, c: seq<Mark>)
    ensures a + (b + c) == (a + b) + c
  {
  }

  lemma {:induction false} ArgsGood(c: FloatCodec, ts: Tokens)
    requires Lexical(ts)
    ensures var r := ParseArgs(c, ts);
      r.Ok? ==>
        && Lexical(r.value.1) && (forall i :: 0 <= i < |r.value.0| ==> ParserMade(r.value.0[i]))
        && MarkToks(c, ts) == ArgMarks(r.value.0) + MarkToks(c, r.value.1)
    decreases |ts|, 9
  {
    hide ParseOr, MarkToks, Lexical, Marks, ParserMade;
    OrGood(c, ts);
    match ParseOr(c, ts)
    case Err(_) =>
    case Ok((arg, rest)) =>
      assert [arg][1..] == [] && ArgMarks([arg]) == Marks(arg) + [] == Marks(arg);
      assert [] + MarkToks(c, ts) == MarkToks(c, ts);
      if rest != [] && rest[0] == TComma {
        TailTokens(c, rest);
        ArgsGood(c, rest[1..]);
        match ParseArgs(c, rest[1..]) {
          case Err(_) =>
          case Ok((more, rest')) =>
            assert ([arg] + more)[1..] == more;
            AppendMarks(Marks(arg), ArgMarks(more), MarkToks(c, rest'));
            assert [] + MarkToks(c, rest[1..]) == MarkToks(c, rest[1..]);
            assert [] + MarkToks(c, ts) == MarkToks(c, ts);
        }
      }
  }

  // ---------------------------------------------------------------------------------------------
  // What the lexer produces
  // ---------------------------------------------------------------------------------------------

  lemma TokenIsLexical(s: string)
    ensures NextToken(s).Tok? && NextToken(s).token.TIdent? ==> IdentText(NextToken(s).token.text)
  {
    hide QuoteAt, NumberLen, SkipWs, TokenAt, IdentText;
    if SkipWs(s) != "" {
      TokenAtIsLexical(SkipWs(s));
    }
  }

  lemma TokenAtIsLexical(t: string)
    requires t != ""
    ensures TokenAt(t).Tok? && TokenAt(t).token.TIdent? ==> IdentText(TokenAt(t).token.text)
  {
    hide QuoteAt, NumberLen, IdentLen;
    if IsAlpha(t[0]) || t[0] == '_' {
      WordAtStart(t);
    }
  }

  lemma WordAtStart(t: string)
    requires t != "" && (IsAlpha(t[0]) || t[0] == '_')
    ensures IdentText(t[..IdentLen(t)])
  {
    assert IdentLen(t) > 0;
  }

  lemma {:induction false} LexedIsLexical(s: string)
    ensures LexAll(s).Ok? ==> Lexical(LexAll(s).value)
    decreases |s|
  {
    hide NextToken, IdentText;
    TokenIsLexical(s);
    match NextToken(s)
    case Tok(t, rest) => LexedIsLexical(rest);
    case _ =>
  }
}
