/**
 The recursive-descent parser (libs/pipeline-expression/parser.go): one function per precedence
 level, over the tokens still to be read, and the parser object whose loops compute them.
 */
module ExprParser {
  import opened Common
  import opened ExprSyntax
  import opened ExprLexer
  import Ascii

  type Tokens = seq<Token>
  type Parsed<T> = Result<(T, Tokens), ParseError>

  /** The keyword or, and, not ... as an identifier token, in any case. */
  predicate IsWord(ts: Tokens, word: string) {
    ts != [] && ts[0].TIdent? && Ascii.EqualFold(ts[0].text, word)
  }

  function CmpOp(t: Token): Option<BinaryOp> {
    match t
    case TEq => Some(Eq)
    case TNotEq => Some(NotEq)
    case TLt => Some(Lt)
    case TLte => Some(Lte)
    case TGt => Some(Gt)
    case TGte => Some(Gte)
    case _ => None
  }

  function AddOp(t: Token): Option<BinaryOp> {
    match t
    case TPlus => Some(Add)
    case TMinus => Some(Sub)
    case _ => None
  }

  function MulOp(t: Token): Option<BinaryOp> {
    match t
    case TStar => Some(Mul)
    case TSlash => Some(Div)
    case _ => None
  }

  /** A successful parse uses at least one token. */
  ghost predicate Consumes<T>(ts: Tokens, r: Parsed<T>) {
    r.Ok? ==> |r.value.1| < |ts|
  }

  ghost predicate Keeps<T>(ts: Tokens, r: Parsed<T>) {
    r.Ok? ==> |r.value.1| <= |ts|
  }

  function ParseOr(c: FloatCodec, ts: Tokens): (r: Parsed<Expr>)
    ensures Consumes(ts, r)
    decreases |ts|, 8
  {
    match ParseAnd(c, ts)
    case Err(e) => Err(e)
    case Ok((left, rest)) => OrLoop(c, left, rest)
  }

  function OrLoop(c: FloatCodec, left: Expr, ts: Tokens): (r: Parsed<Expr>)
    ensures Keeps(ts, r)
    decreases |ts|, 7
  {
    if !IsWord(ts, "or") then Ok((left, ts)) else
    match ParseAnd(c, ts[1..])
    case Err(e) => Err(e)
    case Ok((right, rest)) => OrLoop(c, Binary(Or, left, right), rest)
  }

  function ParseAnd(c: FloatCodec, ts: Tokens): (r: Parsed<Expr>)
    ensures Consumes(ts, r)
    decreases |ts|, 6
  {
    match ParseCmp(c, ts)
    case Err(e) => Err(e)
    case Ok((left, rest)) => AndLoop(c, left, rest)
  }

  function AndLoop(c: FloatCodec, left: Expr, ts: Tokens): (r: Parsed<Expr>)
    ensures Keeps(ts, r)
    decreases |ts|, 6
  {
    if !IsWord(ts, "and") then Ok((left, ts)) else
    match ParseCmp(c, ts[1..])
    case Err(e) => Err(e)
    case Ok((right, rest)) => AndLoop(c, Binary(And, left, right), rest)
  }

  /** A comparison does not chain: at most one operator. */
  function ParseCmp(c: FloatCodec, ts: Tokens): (r: Parsed<Expr>)
    ensures Consumes(ts, r)
    decreases |ts|, 5
  {
    match ParseAdd(c, ts)
    case Err(e) => Err(e)
    case Ok((left, rest)) =>
      if rest == [] || CmpOp(rest[0]).None? then Ok((left, rest)) else
      match ParseAdd(c, rest[1..])
      case Err(e) => Err(e)
      case Ok((right, rest')) => Ok((Binary(CmpOp(rest[0]).value, left, right), rest'))
  }

  function ParseAdd(c: FloatCodec, ts: Tokens): (r: Parsed<Expr>)
    ensures Consumes(ts, r)
    decreases |ts|, 4
  {
    match ParseMul(c, ts)
    case Err(e) => Err(e)
    case Ok((left, rest)) => AddLoop(c, left, rest)
  }

  function AddLoop(c: FloatCodec, left: Expr, ts: Tokens): (r: Parsed<Expr>)
    ensures Keeps(ts, r)
    decreases |ts|, 4
  {
    if ts == [] || AddOp(ts[0]).None? then Ok((left, ts)) else
    match ParseMul(c, ts[1..])
    case Err(e) => Err(e)
    case Ok((right, rest)) => AddLoop(c, Binary(AddOp(ts[0]).value, left, right), rest)
  }

  function ParseMul(c: FloatCodec, ts: Tokens): (r: Parsed<Expr>)
    ensures Consumes(ts, r)
    decreases |ts|, 3
  {
    match ParseUnary(c, ts)
    case Err(e) => Err(e)
    case Ok((left, rest)) => MulLoop(c, left, rest)
  }

  function MulLoop(c: FloatCodec, left: Expr, ts: Tokens): (r: Parsed<Expr>)
    ensures Keeps(ts, r)
    decreases |ts|, 3
  {
    if ts == [] || MulOp(ts[0]).None? then Ok((left, ts)) else
    match ParseUnary(c, ts[1..])
    case Err(e) => Err(e)
    case Ok((right, rest)) => MulLoop(c, Binary(MulOp(ts[0]).value, left, right), rest)
  }

  function ParseUnary(c: FloatCodec, ts: Tokens): (r: Parsed<Expr>)
    ensures Consumes(ts, r)
    decreases |ts|, 2
  {
    if ts != [] && ts[0] == TMinus then
      match ParseUnary(c, ts[1..])
      case Err(e) => Err(e)
      case Ok((inner, rest)) => Ok((Unary(Neg, inner), rest))
    else if IsWord(ts, "not") then
      match ParseUnary(c, ts[1..])
      case Err(e) => Err(e)
      case Ok((inner, rest)) => Ok((Unary(Not, inner), rest))
    else ParsePrimary(c, ts)
  }

  function Expect(ts: Tokens, t: Token): (r: Parsed<()>)
    ensures Consumes(ts, r)
  {
    if ts == [] then Err(UnexpectedEof)
    else if ts[0] != t then Err(Unexpected)
    else Ok(((), ts[1..]))
  }

  function NumberLiteral(c: FloatCodec, text: string): Result<Expr, ParseError> {
    if '.' in text then
      match c.parse(text)
      case None => Err(InvalidNumber(text))
      case Some(d) => Ok(Lit(LitDouble(d)))
    else
      match ParseInt64(text)
      case None => Err(InvalidNumber(text))
      case Some(n) => Ok(Lit(LitInteger(n)))
  }

  /** true, false and null, in any case. */
  function Constant(name: string): Option<Literal> {
    if Ascii.EqualFold(name, "true") then Some(LitBool(true))
    else if Ascii.EqualFold(name, "false") then Some(LitBool(false))
    else if Ascii.EqualFold(name, "null") then Some(LitNull)
    else None
  }

  function ParsePrimary(c: FloatCodec, ts: Tokens): (r: Parsed<Expr>)
    ensures Consumes(ts, r)
    decreases |ts|, 1
  {
    if ts == [] then Err(UnexpectedEof) else
    match ts[0]
    case TLParen =>
      (match ParseOr(c, ts[1..])
       case Err(e) => Err(e)
       case Ok((inner, rest)) =>
         match Expect(rest, TRParen)
         case Err(e) => Err(e)
         case Ok((_, rest')) => Ok((inner, rest')))
    case TNumber(text) =>
      (match NumberLiteral(c, text)
       case Err(e) => Err(e)
       case Ok(e) => Ok((e, ts[1..])))
    case TString(text) => Ok((Lit(LitString(text)), ts[1..]))
    case TIdent(name) =>
      if Constant(name).Some? then Ok((Lit(Constant(name).value), ts[1..]))
      else if |ts| > 1 && ts[1] == TLParen then ParseCallRest(c, name, ts[2..])
      else Ok((Column(name), ts[1..]))
    case _ => Err(Unexpected)
  }

  /** What follows `name (`. */
  function ParseCallRest(c: FloatCodec, name: string, ts: Tokens): (r: Parsed<Expr>)
    ensures Consumes(ts, r)
    decreases |ts|, 10
  {
    var args: Parsed<seq<Expr>> := if ts != [] && ts[0] == TRParen then Ok(([], ts)) else ParseArgs(c, ts);
    match args
    case Err(e) => Err(e)
    case Ok((es, rest)) =>
      match Expect(rest, TRParen)
      case Err(e) => Err(e)
      case Ok((_, rest')) => Ok((Call(name, es), rest'))
  }

  function ParseArgs(c: FloatCodec, ts: Tokens): (r: Parsed<seq<Expr>>)
    ensures Consumes(ts, r)
    decreases |ts|, 9
  {
    match ParseOr(c, ts)
    case Err(e) => Err(e)
    case Ok((arg, rest)) =>
      if rest == [] || rest[0] != TComma then Ok(([arg], rest)) else
      match ParseArgs(c, rest[1..])
      case Err(e) => Err(e)
      case Ok((more, rest')) => Ok(([arg] + more, rest'))
  }

  /** ParseExpr: all tokens must be used. */
  function ParseText(c: FloatCodec, input: string): Result<Expr, ParseError> {
    match LexAll(input)
    case Err(e) => Err(e)
    case Ok(ts) =>
      match ParseOr(c, ts)
      case Err(e) => Err(e)
      case Ok((e, rest)) => if rest == [] then Ok(e) else Err(Unexpected)
  }

  // ---------------------------------------------------------------------------------------------
  // The parser object
  // ---------------------------------------------------------------------------------------------

  class Parser {
    const codec: FloatCodec
    const tokens: Tokens
    var pos: nat

    constructor (codec: FloatCodec, tokens: Tokens)
      ensures this.codec == codec && this.tokens == tokens && pos == 0
    {
      this.codec, this.tokens, pos := codec, tokens, 0;
    }

    ghost predicate Valid()
      reads this
    {
      pos <= |tokens|
    }

    /** The tokens still to be read. */
    ghost function Rest(): Tokens
      requires Valid()
      reads this
    {
      tokens[pos..]
    }

    /** r is what the level function gave, and on success pos stands at its rest. */
    ghost predicate Agrees<T>(spec: Parsed<T>, r: Result<T, ParseError>)
      reads this
    {
      && Valid()
      && (spec.Err? ==> r == Err(spec.error))
      && (spec.Ok? ==> r == Ok(spec.value.0) && Rest() == spec.value.1)
    }

    method ParseOrLevel() returns (r: Result<Expr, ParseError>)
      requires Valid()
      modifies this
      ensures Agrees(ParseOr(codec, old(Rest())), r)
      decreases |tokens| - pos, 8
    {
      r := ParseAndLevel();
      if r.Err? {
        return;
      }
      var left := r.value;
      while pos < |tokens| && tokens[pos].TIdent? && Ascii.EqualFold(tokens[pos].text, "or")
        invariant Valid() && pos > old(pos)
        invariant ParseOr(codec, old(Rest())) == OrLoop(codec, left, Rest())
        decreases |tokens| - pos
      {
        assert Rest()[1..] == tokens[pos + 1..];
        pos := pos + 1;
        r := ParseAndLevel();
        if r.Err? {
          return;
        }
        left := Binary(Or, left, r.value);
      }
      return Ok(left);
    }

    method ParseAndLevel() returns (r: Result<Expr, ParseError>)
      requires Valid()
      modifies this
      ensures Agrees(ParseAnd(codec, old(Rest())), r)
      decreases |tokens| - pos, 6
    {
      r := ParseCmpLevel();
      if r.Err? {
        return;
      }
      var left := r.value;
      while pos < |tokens| && tokens[pos].TIdent? && Ascii.EqualFold(tokens[pos].text, "and")
        invariant Valid() && pos > old(pos)
        invariant ParseAnd(codec, old(Rest())) == AndLoop(codec, left, Rest())
        decreases |tokens| - pos
      {
        assert Rest()[1..] == tokens[pos + 1..];
        pos := pos + 1;
        r := ParseCmpLevel();
        if r.Err? {
          return;
        }
        left := Binary(And, left, r.value);
      }
      return Ok(left);
    }

    method ParseCmpLevel() returns (r: Result<Expr, ParseError>)
      requires Valid()
      modifies this
      ensures Agrees(ParseCmp(codec, old(Rest())), r)
      decreases |tokens| - pos, 5
    {
      r := ParseAddLevel();
      if r.Err? || pos >= |tokens| || CmpOp(tokens[pos]).None? {
        return;
      }
      var left, op := r.value, CmpOp(tokens[pos]).value;
      assert Rest()[1..] == tokens[pos + 1..];
      pos := pos + 1;
      r := ParseAddLevel();
      if r.Ok? {
        r := Ok(Binary(op, left, r.value));
      }
    }

    method ParseAddLevel() returns (r: Result<Expr, ParseError>)
      requires Valid()
      modifies this
      ensures Agrees(ParseAdd(codec, old(Rest())), r)
      decreases |tokens| - pos, 4
    {
      r := ParseMulLevel();
      if r.Err? {
        return;
      }
      var left := r.value;
      while pos < |tokens| && AddOp(tokens[pos]).Some?
        invariant Valid() && pos > old(pos)
        invariant ParseAdd(codec, old(Rest())) == AddLoop(codec, left, Rest())
        decreases |tokens| - pos
      {
        var op := AddOp(tokens[pos]).value;
        assert Rest()[1..] == tokens[pos + 1..];
        pos := pos + 1;
        r := ParseMulLevel();
        if r.Err? {
          return;
        }
        left := Binary(op, left, r.value);
      }
      return Ok(left);
    }

    method ParseMulLevel() returns (r: Result<Expr, ParseError>)
      requires Valid()
      modifies this
      ensures Agrees(ParseMul(codec, old(Rest())), r)
      decreases |tokens| - pos, 3
    {
      r := ParseUnaryLevel();
      if r.Err? {
        return;
      }
      var left := r.value;
      while pos < |tokens| && MulOp(tokens[pos]).Some?
        invariant Valid() && pos > old(pos)
        invariant ParseMul(codec, old(Rest())) == MulLoop(codec, left, Rest())
        decreases |tokens| - pos
      {
        var op := MulOp(tokens[pos]).value;
        assert Rest()[1..] == tokens[pos + 1..];
        pos := pos + 1;
        r := ParseUnaryLevel();
        if r.Err? {
          return;
        }
        left := Binary(op, left, r.value);
      }
      return Ok(left);
    }

    method ParseUnaryLevel() returns (r: Result<Expr, ParseError>)
      requires Valid()
      modifies this
      ensures Agrees(ParseUnary(codec, old(Rest())), r)
      decreases |tokens| - pos, 2
    {
      if pos < |tokens| {
        assert Rest()[1..] == tokens[pos + 1..];
        if tokens[pos] == TMinus {
          pos := pos + 1;
          r := ParseUnaryLevel();
          if r.Ok? {
            r := Ok(Unary(Neg, r.value));
          }
          return;
        }
        if tokens[pos].TIdent? && Ascii.EqualFold(tokens[pos].text, "not") {
          pos := pos + 1;
          r := ParseUnaryLevel();
          if r.Ok? {
            r := Ok(Unary(Not, r.value));
          }
          return;
        }
      }
      r := ParsePrimaryLevel();
    }

    method ExpectRParen() returns (r: Result<(), ParseError>)
      requires Valid()
      modifies this
      ensures Agrees(Expect(old(Rest()), TRParen), r)
    {
      if pos >= |tokens| {
        return Err(UnexpectedEof);
      }
      pos := pos + 1;
      return if tokens[pos - 1] == TRParen then Ok(()) else Err(Unexpected);
    }

    method ParsePrimaryLevel() returns (r: Result<Expr, ParseError>)
      requires Valid()
      modifies this
      ensures Agrees(ParsePrimary(codec, old(Rest())), r)
      decreases |tokens| - pos, 1
    {
      if pos >= |tokens| {
        return Err(UnexpectedEof);
      }
      var t := tokens[pos];
      assert Rest()[1..] == tokens[pos + 1..];
      pos := pos + 1;
      match t {
        case TLParen =>
          r := ParseOrLevel();
          if r.Err? {
            return;
          }
          var closed := ExpectRParen();
          if closed.Err? {
            return Err(closed.error);
          }
          return;
        case TNumber(text) => return NumberLiteral(codec, text);
        case TString(text) => return Ok(Lit(LitString(text)));
        case TIdent(name) =>
          if Constant(name).Some? {
            return Ok(Lit(Constant(name).value));
          }
          if pos < |tokens| && tokens[pos] == TLParen {
            assert old(Rest())[2..] == tokens[pos + 1..];
            pos := pos + 1;
            r := ParseCall(name);
            return;
          }
          return Ok(Column(name));
        case _ => return Err(Unexpected);
      }
    }

    method ParseCall(name: string) returns (r: Result<Expr, ParseError>)
      requires Valid()
      modifies this
      ensures Agrees(ParseCallRest(codec, name, old(Rest())), r)
      decreases |tokens| - pos, 10
    {
      var args: seq<Expr> := [];
      if pos >= |tokens| || tokens[pos] != TRParen {
        var more := ParseArgList();
        if more.Err? {
          return Err(more.error);
        }
        args := more.value;
      }
      var closed := ExpectRParen();
      if closed.Err? {
        return Err(closed.error);
      }
      return Ok(Call(name, args));
    }

    /** The arguments read so far, put in front of the rest of the list. */
    ghost function WithArgs(args: seq<Expr>, r: Parsed<seq<Expr>>): Parsed<seq<Expr>> {
      match r
      case Err(e) => Err(e)
      case Ok((more, rest)) => Ok((args + more, rest))
    }

    method ParseArgList() returns (r: Result<seq<Expr>, ParseError>)
      requires Valid()
      modifies this
      ensures Agrees(ParseArgs(codec, old(Rest())), r)
      decreases |tokens| - pos, 9
    {
      var args: seq<Expr> := [];
      ghost var whole := ParseArgs(codec, Rest());
      assert whole.Ok? ==> [] + whole.value.0 == whole.value.0;
      while true
        invariant Valid() && pos >= old(pos)
        invariant whole == WithArgs(args, ParseArgs(codec, Rest()))
        decreases |tokens| - pos
      {
        ghost var here := ParseArgs(codec, Rest());
        var arg := ParseOrLevel();
        if arg.Err? {
          return Err(arg.error);
        }
        ghost var before := args;
        args := args + [arg.value];
        if pos >= |tokens| || tokens[pos] != TComma {
          return Ok(args);
        }
        assert Rest()[1..] == tokens[pos + 1..];
        pos := pos + 1;
        ghost var next := ParseArgs(codec, Rest());
        assert next.Ok? ==> before + ([arg.value] + next.value.0) == args + next.value.0;
      }
    }
  }

  /** ParseExpr. */
  method ParseExpr(c: FloatCodec, input: string) returns (r: Result<Expr, ParseError>)
    ensures r == ParseText(c, input)
  {
    var tokens := Tokenize(input);
    if tokens.Err? {
      return Err(tokens.error);
    }
    var p := new Parser(c, tokens.value);
    assert p.Rest() == tokens.value;
    r := p.ParseOrLevel();
    if r.Ok? && p.pos != |p.tokens| {
      return Err(Unexpected);
    }
  }
}
