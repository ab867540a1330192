/**
 The lexer (libs/pipeline-expression/parser.go).  Characters stand for the bytes of the source:
 every byte the lexer tests for is ASCII, so bytes of longer encodings only ever occur inside
 string literals or as unexpected input.
 */
module ExprLexer {
  import opened Common
  import opened ExprSyntax

  datatype Lexed = End | Tok(token: Token, rest: string) | Bad(error: ParseError)

  function SkipWs(s: string): (r: string)
    ensures |r| <= |s| && (r != "" ==> !IsSpace(r[0]))
  {
    if s != "" && IsSpace(s[0]) then SkipWs(s[1..]) else s
  }

  /** The length of the longest prefix of identifier characters. */
  function IdentLen(s: string): (n: nat)
    ensures n <= |s| && (forall i :: 0 <= i < n ==> IsIdentChar(s[i])) && (n < |s| ==> !IsIdentChar(s[n]))
  {
    if s != "" && IsIdentChar(s[0]) then 1 + IdentLen(s[1..]) else 0
  }

  function NumberLen(s: string): (n: nat)
    ensures n <= |s| && (forall i :: 0 <= i < n ==> IsNumberChar(s[i])) && (n < |s| ==> !IsNumberChar(s[n]))
  {
    if s != "" && IsNumberChar(s[0]) then 1 + NumberLen(s[1..]) else 0
  }

  /** The position of the first `quote`. */
  function QuoteAt(s: string, quote: char): (r: Option<nat>)
    ensures r.Some? ==> r.value < |s| && s[r.value] == quote && forall i :: 0 <= i < r.value ==> s[i] != quote
    ensures r.None? ==> quote !in s
  {
    if s == "" then None
    else if s[0] == quote then Some(0)
    else match QuoteAt(s[1..], quote)
      case None => assert s == [s[0]] + s[1..]; None
      case Some(n) => Some(n + 1)
  }

  /** The tokens of one character. */
  function Single(b: char): Option<Token> {
    match b
    case '(' => Some(TLParen)
    case ')' => Some(TRParen)
    case ',' => Some(TComma)
    case '+' => Some(TPlus)
    case '-' => Some(TMinus)
    case '*' => Some(TStar)
    case '/' => Some(TSlash)
    case '=' => Some(TEq)
    case _ => None
  }

  /** The tokens that start with !, < or > and may end with =. */
  function Comparison(s: string): (r: Lexed)
    requires s != "" && (s[0] == '!' || s[0] == '<' || s[0] == '>')
    ensures r.Tok? ==> |r.rest| < |s|
  {
    var wide := |s| > 1 && s[1] == '=';
    if s[0] == '!' then if wide then Tok(TNotEq, s[2..]) else Bad(Unexpected)
    else if s[0] == '<' then if wide then Tok(TLte, s[2..]) else Tok(TLt, s[1..])
    else if wide then Tok(TGte, s[2..]) else Tok(TGt, s[1..])
  }

  /** The token at the start of a text that does not start with white space. */
  function TokenAt(s: string): (r: Lexed)
    requires s != ""
    ensures r.Tok? ==> |r.rest| < |s|
  {
    var b := s[0];
    if Single(b).Some? then Tok(Single(b).value, s[1..])
    else if b == '!' || b == '<' || b == '>' then Comparison(s)
    else if b == '\'' || b == '"' then
      match QuoteAt(s[1..], b)
      case None => Bad(UnterminatedString)
      case Some(n) => Tok(TString(s[1..][..n]), s[n + 2..])
    else if IsNumberChar(b) then Tok(TNumber(s[..NumberLen(s)]), s[NumberLen(s)..])
    else if IsAlpha(b) || b == '_' then Tok(TIdent(s[..IdentLen(s)]), s[IdentLen(s)..])
    else Bad(Unexpected)
  }

  function NextToken(s: string): (r: Lexed)
    ensures r.Tok? ==> |r.rest| < |s|
  {
    var t := SkipWs(s);
    if t == "" then End else TokenAt(t)
  }

  /** All tokens of a text, or the first error. */
  function LexAll(s: string): Result<seq<Token>, ParseError>
    decreases |s|
  {
    match NextToken(s)
    case End => Ok([])
    case Bad(e) => Err(e)
    case Tok(t, rest) => Prepend([t], LexAll(rest))
  }

  lemma QuoteEnds(quote: char)
    ensures QuoteAt("", quote) == None
  {
  }

  lemma QuoteHere(s: string, quote: char)
    requires s != "" && s[0] == quote
    ensures QuoteAt(s, quote) == Some(0)
  {
  }

  lemma QuoteStep(s: string, quote: char)
    requires s != "" && s[0] != quote
    ensures QuoteAt(s, quote) == match QuoteAt(s[1..], quote) case None => None case Some(n) => Some(n + 1)
  {
  }

  // ---------------------------------------------------------------------------------------------
  // The lexer object
  // ---------------------------------------------------------------------------------------------

  class Lexer {
    const bytes: string
    var pos: nat

    constructor (input: string)
      ensures bytes == input && pos == 0 && Valid()
    {
      bytes, pos := input, 0;
    }

    ghost predicate Valid()
      reads this
    {
      pos <= |bytes|
    }

    /** What is still to be read. */
    ghost function Remaining(): string
      requires Valid()
      reads this
    {
      bytes[pos..]
    }

    method SkipWS()
      requires Valid()
      modifies this
      ensures Valid() && Remaining() == SkipWs(old(Remaining()))
    {
      while pos < |bytes| && IsSpace(bytes[pos])
        invariant Valid() && SkipWs(Remaining()) == SkipWs(old(Remaining()))
        decreases |bytes| - pos
      {
        assert bytes[pos..][1..] == bytes[pos + 1..];
        pos := pos + 1;
      }
    }

    method ReadIdent() returns (text: string)
      requires Valid()
      modifies this
      ensures Valid()
      ensures var n := IdentLen(old(Remaining())); text == old(Remaining())[..n] && Remaining() == old(Remaining())[n..]
    {
      var begin := pos;
      while pos < |bytes| && IsIdentChar(bytes[pos])
        invariant begin <= pos <= |bytes|
        invariant IdentLen(bytes[begin..]) == pos - begin + IdentLen(bytes[pos..])
        decreases |bytes| - pos
      {
        assert bytes[pos..][1..] == bytes[pos + 1..];
        pos := pos + 1;
      }
      text := bytes[begin..pos];
      assert bytes[begin..][pos - begin..] == bytes[pos..];
    }

    method ReadNumber() returns (text: string)
      requires Valid()
      modifies this
      ensures Valid()
      ensures
        var n := NumberLen(old(Remaining()));
        text == old(Remaining())[..n] && Remaining() == old(Remaining())[n..]
    {
      var begin := pos;
      while pos < |bytes| && IsNumberChar(bytes[pos])
        invariant begin <= pos <= |bytes|
        invariant NumberLen(bytes[begin..]) == pos - begin + NumberLen(bytes[pos..])
        decreases |bytes| - pos
      {
        assert bytes[pos..][1..] == bytes[pos + 1..];
        pos := pos + 1;
      }
      text := bytes[begin..pos];
      assert bytes[begin..][pos - begin..] == bytes[pos..];
    }

    /** Reads up to and over the closing quote; None when it is missing. */
    method ReadString(quote: char) returns (text: Option<string>)
      requires Valid()
      modifies this
      ensures Valid()
      ensures match QuoteAt(old(Remaining()), quote)
        case None => text == None
        case Some(n) => text == Some(old(Remaining())[..n]) && Remaining() == old(Remaining())[n + 1..]
    {
      hide QuoteAt;
      var begin := pos;
      while true
        invariant begin <= pos <= |bytes|
        invariant QuoteAt(bytes[begin..], quote) ==
          (match QuoteAt(bytes[pos..], quote) case None => None case Some(n) => Some(pos - begin + n))
        decreases |bytes| - pos
      {
        if pos >= |bytes| {
          QuoteEnds(quote);
          return None;
        }
        if bytes[pos] == quote {
          QuoteHere(bytes[pos..], quote);
          text := Some(bytes[begin..pos]);
          assert bytes[begin..][..pos - begin] == bytes[begin..pos];
          pos := pos + 1;
          assert bytes[begin..][pos - begin..] == bytes[pos..];
          return;
        }
        assert bytes[pos..][1..] == bytes[pos + 1..];
        QuoteStep(bytes[pos..], quote);
        pos := pos + 1;
      }
    }

    method ReadComparison() returns (r: Result<Option<Token>, ParseError>)
      requires Valid() && pos < |bytes| && (bytes[pos] == '!' || bytes[pos] == '<' || bytes[pos] == '>')
      modifies this
      ensures Valid()
      ensures match Comparison(old(Remaining()))
        case Bad(e) => r == Err(e)
        case Tok(t, rest) => r == Ok(Some(t)) && Remaining() == rest
        case End => false
    {
      var b := bytes[pos];
      ghost var s := bytes[pos..];
      assert s[1..] == bytes[pos + 1..];
      assert pos + 1 < |bytes| ==> s[1] == bytes[pos + 1] && s[2..] == bytes[pos + 2..];
      pos := pos + 1;
      var wide := pos < |bytes| && bytes[pos] == '=';
      if wide {
        pos := pos + 1;
        return Ok(Some(if b == '!' then TNotEq else if b == '<' then TLte else TGte));
      }
      if b == '!' {
        return Err(Unexpected);
      }
      return Ok(Some(if b == '<' then TLt else TGt));
    }

    /** nextToken: None at the end of the input. */
    method Next() returns (r: Result<Option<Token>, ParseError>)
      requires Valid()
      modifies this
      ensures Valid()
      ensures match NextToken(old(Remaining()))
        case End => r == Ok(None) && Remaining() == ""
        case Bad(e) => r == Err(e)
        case Tok(t, rest) => r == Ok(Some(t)) && Remaining() == rest
    {
      hide Comparison;
      SkipWS();
      if pos >= |bytes| {
        return Ok(None);
      }
      var b := bytes[pos];
      ghost var s := bytes[pos..];
      assert s[1..] == bytes[pos + 1..];
      if Single(b).Some? {
        pos := pos + 1;
        return Ok(Some(Single(b).value));
      }
      if b == '!' || b == '<' || b == '>' {
        r := ReadComparison();
        return;
      }
      if b == '\'' || b == '"' {
        pos := pos + 1;
        var text := ReadString(b);
        if text.None? {
          return Err(UnterminatedString);
        }
        return Ok(Some(TString(text.value)));
      }
      if IsNumberChar(b) {
        var text := ReadNumber();
        return Ok(Some(TNumber(text)));
      }
      if IsAlpha(b) || b == '_' {
        var text := ReadIdent();
        return Ok(Some(TIdent(text)));
      }
      pos := pos + 1;
      return Err(Unexpected);
    }
  }

  function Prepend(ts: seq<Token>, r: Result<seq<Token>, ParseError>): Result<seq<Token>, ParseError> {
    match r
    case Err(e) => Err(e)
    case Ok(us) => Ok(ts + us)
  }

  lemma PrependTwice(ts: seq<Token>, us: seq<Token>, r: Result<seq<Token>, ParseError>)
    ensures Prepend(ts, Prepend(us, r)) == Prepend(ts + us, r)
    ensures Prepend([], r) == r
  {
    match r
    case Err(e) =>
    case Ok(vs) =>
      assert ts + (us + vs) == (ts + us) + vs;
      assert [] + vs == vs;
  }

  /** The token loop of ParseExpr. */
  method Tokenize(input: string) returns (r: Result<seq<Token>, ParseError>)
    ensures r == LexAll(input)
  {
    var lex := new Lexer(input);
    var tokens: seq<Token> := [];
    assert lex.Remaining() == input;
    PrependTwice([], [], LexAll(input));
    while true
      invariant fresh(lex) && lex.Valid()
      invariant LexAll(input) == Prepend(tokens, LexAll(lex.Remaining()))
      decreases |lex.Remaining()|
    {
      var t := lex.Next();
      if t.Err? {
        return Err(t.error);
      }
      if t.value.None? {
        assert tokens + [] == tokens;
        return Ok(tokens);
      }
      PrependTwice(tokens, [t.value.value], LexAll(lex.Remaining()));
      tokens := tokens + [t.value.value];
    }
  }
}
