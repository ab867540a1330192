/**
 The converse of the round trip: a tree that survives printing and parsing is Printable.  The parser keeps
 string and floating-point literals in order; a string with a quote breaks at its first quote, and a double
 whose text is not one number with a point leaves a gap.
 */
module ExprExact {
  import opened Common
  import opened ExprSyntax
  import opened ExprLexer
  import opened ExprParser
  import opened ExprPrinter
  import opened ExprRoundTrip
  import opened ExprMarks

  // ---------------------------------------------------------------------------------------------
  // String literals of tokens and of trees
  // ---------------------------------------------------------------------------------------------

  /** The string literals of a token sequence, in order. */
  function StringToks(ts: Tokens): seq<string> {
    if ts == [] then [] else StringOf(ts[0]) + StringToks(ts[1..])
  }

  function StringOf(t: Token): seq<string> {
    if t.TString? then [t.text] else []
  }

  /** The string literals of a tree, in printing order. */
  function Strings(e: Expr): seq<string> {
    match e
    case Lit(LitString(s)) => [s]
    case Lit(_) => []
    case Column(_) => []
    case Call(_, args) => ArgStrings(args)
    case Unary(_, operand) => Strings(operand)
    case Binary(_, left, right) => Strings(left) + Strings(right)
  }

  function ArgStrings(args: seq<Expr>): seq<string> {
    if args == [] then [] else Strings(args[0]) + ArgStrings(args[1..])
  }

  /** The strings among marks. */
  function StringsIn(marks: seq<Mark>): seq<string> {
    if marks == [] then []
    else (if marks[0].StringMark? then [marks[0].text] else []) + StringsIn(marks[1..])
  }

  lemma {:induction false} StringsInConcat(a: seq<Mark>, b: seq<Mark>)
    ensures StringsIn(a + b) == StringsIn(a) + StringsIn(b)
    decreases |a|
  {
    if a == [] {
      assert a + b == b;
    } else {
      assert (a + b)[0] == a[0] && (a + b)[1..] == a[1..] + b;
      StringsInConcat(a[1..], b);
    }
  }

  lemma {:induction false} StringsOfToks(c: FloatCodec, ts: Tokens)
    ensures StringsIn(MarkToks(c, ts)) == StringToks(ts)
    decreases |ts|
  {
    if ts != [] {
      StringsInConcat(MarkOf(c, ts[0]), MarkToks(c, ts[1..]));
      StringsOfToks(c, ts[1..]);
      OneMark(c, ts[0]);
    }
  }

  lemma OneMark(c: FloatCodec, t: Token)
    ensures StringsIn(MarkOf(c, t)) == StringOf(t)
  {
  }

  lemma {:induction false} StringsOfTree(e: Expr)
    ensures StringsIn(Marks(e)) == Strings(e)
    decreases e, 1
  {
    match e
    case Lit(_) =>
    case Column(_) =>
    case Call(_, args) => StringsOfArgs(args);
    case Unary(_, operand) => StringsOfTree(operand);
    case Binary(_, left, right) =>
      StringsOfTree(left);
      StringsOfTree(right);
      StringsInConcat(Marks(left), Marks(right));
  }

  lemma {:induction false} StringsOfArgs(args: seq<Expr>)
    ensures StringsIn(ArgMarks(args)) == ArgStrings(args)
    decreases args, 0
  {
    if args != [] {
      StringsOfTree(args[0]);
      StringsOfArgs(args[1..]);
      StringsInConcat(Marks(args[0]), ArgMarks(args[1..]));
    }
  }

  // ---------------------------------------------------------------------------------------------
  // A quote inside a string literal breaks the text
  // ---------------------------------------------------------------------------------------------

  /** What the text of a double can be: it lexes to the same tokens whatever follows, at most one of them a number
      with a point and none a string; and if it is not a single number, no part of it parses to the double. */
  ghost predicate ShapedDouble(c: FloatCodec, d: Double) {
    && DoubleLexes(c, d) && StringToks(DoubleToks(c, d)) == []
    && |MarkToks(c, DoubleToks(c, d))| <= 1
    && (!NumberText(c.format(d)) ==> MarkToks(c, DoubleToks(c, d)) != [DoubleMark(Some(d))])
  }

  ghost predicate Shaped(c: FloatCodec, e: Expr) {
    match e
    case Lit(lit) => lit.LitDouble? ==> ShapedDouble(c, lit.double)
    case Column(_) => true
    case Call(_, args) => forall i :: 0 <= i < |args| ==> Shaped(c, args[i])
    case Unary(_, operand) => Shaped(c, operand)
    case Binary(_, left, right) => Shaped(c, left) && Shaped(c, right)
  }

  predicate QuoteFree(e: Expr) {
    match e
    case Lit(LitString(s)) => '\'' !in s
    case Lit(_) => true
    case Column(_) => true
    case Call(_, args) => forall i :: 0 <= i < |args| ==> QuoteFree(args[i])
    case Unary(_, operand) => QuoteFree(operand)
    case Binary(_, left, right) => QuoteFree(left) && QuoteFree(right)
  }

  /** The strings lexed, if lexing succeeds at all, differ from the wanted ones at some position. */
  ghost predicate Diverges(r: Result<seq<Token>, ParseError>, wanted: seq<string>) {
    r.Ok? ==> exists k ::
      0 <= k < |wanted| && k < |StringToks(r.value)| && StringToks(r.value)[k] != wanted[k]
  }

  lemma {:induction false} StringToksConcat(ts: Tokens, us: Tokens)
    ensures StringToks(ts + us) == StringToks(ts) + StringToks(us)
    decreases |ts|
  {
    if ts == [] {
      assert ts + us == us;
    } else {
      assert (ts + us)[0] == ts[0] && (ts + us)[1..] == ts[1..] + us;
      StringToksConcat(ts[1..], us);
    }
  }

  /** Tokens read before the break shift it, tokens wanted after it do not matter. */
  lemma DivergesLater(ts: Tokens, r: Result<seq<Token>, ParseError>, wanted: seq<string>, more: seq<string>)
    requires Diverges(r, wanted)
    ensures Diverges(Prepend(ts, r), StringToks(ts) + wanted + more)
  {
    hide StringToks;
    if r.Ok? {
      StringToksConcat(ts, r.value);
      var k :| 0 <= k < |wanted| && k < |StringToks(r.value)| && StringToks(r.value)[k] != wanted[k];
      Shifted(StringToks(ts), StringToks(r.value), [], k);
      Shifted(StringToks(ts), wanted, more, k);
    }
  }

  lemma Shifted(a: seq<string>, b: seq<string>, c: seq<string>, k: nat)
    requires k < |b|
    ensures |a + b + c| > |a| + k && (a + b + c)[|a| + k] == b[k]
    ensures c == [] ==> a + b + c == a + b
  {
  }

  lemma DivergesMore(r: Result<seq<Token>, ParseError>, wanted: seq<string>, more: seq<string>)
    requires Diverges(r, wanted)
    ensures Diverges(r, wanted + more)
  {
    hide StringToks;
  }

  lemma {:induction false} ToksStrings(c: FloatCodec, e: Expr)
    requires Shaped(c, e)
    ensures StringToks(Toks(c, e)) == Strings(e)
    decreases e, 1
  {
    match e
    case Lit(_) =>
    case Column(_) =>
    case Call(name, args) =>
      ArgToksStrings(c, args);
      StringToksConcat([TIdent(name), TLParen], ArgToks(c, args));
      StringToksConcat([TIdent(name), TLParen] + ArgToks(c, args), [TRParen]);
      assert StringToks([TIdent(name), TLParen]) == [] && StringToks([TRParen]) == [];
    case Unary(op, operand) =>
      ToksStrings(c, operand);
      StringToksConcat([if op == Neg then TMinus else TIdent("not")], Toks(c, operand));
    case Binary(op, left, right) =>
      ToksStrings(c, left);
      ToksStrings(c, right);
      SurroundedStrings(op, Toks(c, left), Toks(c, right));
  }

  lemma SurroundedStrings(op: BinaryOp, l: Tokens, r: Tokens)
    ensures StringToks([TLParen] + l + [OpToken(op)] + r + [TRParen]) == StringToks(l) + StringToks(r)
  {
    OperatorHasNoString(op);
    hide StringToks;
    StringToksConcat([TLParen], l);
    StringToksConcat([TLParen] + l, [OpToken(op)]);
    StringToksConcat([TLParen] + l + [OpToken(op)], r);
    StringToksConcat([TLParen] + l + [OpToken(op)] + r, [TRParen]);
  }

  lemma {:induction false} ArgToksStrings(c: FloatCodec, args: seq<Expr>)
    requires forall i :: 0 <= i < |args| ==> Shaped(c, args[i])
    ensures StringToks(ArgToks(c, args)) == ArgStrings(args)
    decreases args, 0
  {
    hide StringToks, Strings, Toks, Shaped;
    if args == [] {
      NoTokens(Ok([]));
    } else if |args| == 1 {
      ToksStrings(c, args[0]);
      assert args[1..] == [];
      assert ArgStrings(args) == Strings(args[0]) + [] == Strings(args[0]);
    } else {
      ToksStrings(c, args[0]);
      ArgToksStrings(c, args[1..]);
      OperatorHasNoString(Add);
      StringToksConcat(Toks(c, args[0]), [TComma]);
      StringToksConcat(Toks(c, args[0]) + [TComma], ArgToks(c, args[1..]));
    }
  }

  /** Leaves that lex to known tokens, except that strings may contain quotes. */
  ghost predicate Plain(c: FloatCodec, e: Expr) {
    ParserMade(e) && Shaped(c, e)
  }

  lemma PlainIsShaped(c: FloatCodec, e: Expr)
    requires Plain(c, e)
    ensures Shaped(c, e)
  {
  }

  lemma {:induction false} PlainIsLexable(c: FloatCodec, e: Expr)
    requires Plain(c, e) && QuoteFree(e)
    ensures Lexable(c, e)
  {
    match e
    case Lit(_) =>
    case Column(_) =>
    case Call(_, args) =>
      forall i | 0 <= i < |args|
        ensures Lexable(c, args[i])
      {
        PlainIsLexable(c, args[i]);
      }
    case Unary(_, operand) => PlainIsLexable(c, operand);
    case Binary(_, left, right) =>
      PlainIsLexable(c, left);
      PlainIsLexable(c, right);
  }

  /** A quoted text is read as a string up to its first quote. */
  lemma QuotedStringToken(text: string, rest: string) returns (short: string, left: string)
    requires '\'' in text
    ensures NextToken("'" + text + "'" + rest) == Tok(TString(short), left) && |short| < |text|
  {
    hide NumberLen, IdentLen, Comparison;
    var s := "'" + text + "'" + rest;
    var tail := s[1..];
    assert s[0] == '\'' && SkipWs(s) == s;
    assert tail == text + "'" + rest;
    var n :| 0 <= n < |text| && text[n] == '\'';
    assert tail[n] == '\'';
    var q := QuoteAt(tail, '\'');
    assert q.Some? && q.value <= n;
    short, left := tail[..q.value], s[q.value + 2..];
    assert TokenAt(s) == Tok(TString(short), left);
  }

  lemma QuotedStringBreaks(text: string, rest: string)
    requires '\'' in text
    ensures Diverges(LexAll("'" + text + "'" + rest), [text])
  {
    var s := "'" + text + "'" + rest;
    var short, left := QuotedStringToken(text, rest);
    LexStep(s, TString(short), left);
    hide LexAll, NextToken;
    var r := LexAll(left);
    if r.Ok? {
      assert StringToks([TString(short)] + r.value)[0] == short;
    }
  }

  /** Whatever follows, a tree with a quoted string does not lex to its own strings. */
  lemma {:induction false} QuoteBreaks(c: FloatCodec, e: Expr, rest: string)
    requires Plain(c, e) && !QuoteFree(e)
    ensures Diverges(LexAll(Print(c, e) + rest), Strings(e))
    decreases e, 1
  {
    hide LexAll, ShapedDouble, Diverges;
    match e
    case Lit(LitString(s)) => QuotedStringBreaks(s, rest);
    case Call(name, args) => CallBreaks(c, name, args, rest);
    case Unary(op, operand) =>
      var text := Print(c, operand) + rest;
      assert Print(c, e) + rest == UnaryText(op) + text;
      QuoteBreaks(c, operand, rest);
      UnaryBreaks(op, text, Strings(operand));
    case Binary(op, left, right) => BinaryBreaks(c, op, left, right, rest);
  }

  lemma UnaryBreaks(op: UnaryOp, text: string, wanted: seq<string>)
    requires Diverges(LexAll(text), wanted)
    ensures Diverges(LexAll(UnaryText(op) + text), wanted)
  {
    hide LexAll, Diverges;
    var first := if op == Neg then TMinus else TIdent("not");
    if op == Neg {
      SingleLexes('-', text);
    } else {
      assert "not " + text == "not" + (" " + text);
      WordLexes("not", " " + text);
      SpaceSkips(text);
    }
    DivergesLater([first], LexAll(text), wanted, []);
    assert StringToks([first]) + wanted + [] == wanted;
  }

  lemma {:induction false} BinaryBreaks(c: FloatCodec, op: BinaryOp, left: Expr, right: Expr, rest: string)
    requires Plain(c, left) && Plain(c, right) && !(QuoteFree(left) && QuoteFree(right))
    ensures Diverges(LexAll(Print(c, Binary(op, left, right)) + rest), Strings(left) + Strings(right))
    decreases Binary(op, left, right), 0
  {
    hide LexAll, Diverges, Strings, QuoteFree, Plain, StringToks, Print, OpText, Shaped, Lexable;
    var t3 := Print(c, right) + (")" + rest);
    var t2 := OpText(op) + " " + t3;
    BinaryText(c, op, left, right, rest);
    if !QuoteFree(left) {
      QuoteBreaks(c, left, " " + t2);
      ParenBreaks(Print(c, left) + (" " + t2), Strings(left), Strings(right));
    } else {
      QuoteBreaks(c, right, ")" + rest);
      PlainIsShaped(c, left);
      PlainIsLexable(c, left);
      RightBreaks(c, op, left, t3, Strings(right));
      ParenBreaks(Print(c, left) + (" " + t2), Strings(left) + Strings(right), []);
      assert Strings(left) + Strings(right) + [] == Strings(left) + Strings(right);
    }
  }

  lemma ParenBreaks(text: string, wanted: seq<string>, more: seq<string>)
    requires Diverges(LexAll(text), wanted)
    ensures Diverges(LexAll("(" + text), wanted + more)
  {
    hide LexAll, Diverges, StringToks, Prepend;
    SingleLexes('(', text);
    OperatorHasNoString(Add);
    DivergesLater([TLParen], LexAll(text), wanted, more);
    assert [] + wanted + more == wanted + more;
  }

  lemma BinaryText(c: FloatCodec, op: BinaryOp, left: Expr, right: Expr, rest: string)
    ensures Print(c, Binary(op, left, right)) + rest ==
      "(" + (Print(c, left) + (" " + (OpText(op) + " " + (Print(c, right) + (")" + rest)))))
  {
  }

  lemma RightBreaks(c: FloatCodec, op: BinaryOp, left: Expr, t3: string, wanted: seq<string>)
    requires Lexable(c, left) && Shaped(c, left) && Diverges(LexAll(t3), wanted)
    ensures Diverges(LexAll(Print(c, left) + (" " + (OpText(op) + " " + t3))), Strings(left) + wanted)
  {
    hide LexAll, Diverges, Strings, StringToks, Print, Toks, OpText, OpToken, Lexable, Shaped;
    var t2 := OpText(op) + " " + t3;
    OpLexes(op, t3);
    OperatorHasNoString(op);
    DivergesLater([OpToken(op)], LexAll(t3), wanted, []);
    assert [] + wanted + [] == wanted;
    SpaceSkips(t2);
    PrintLexes(c, left, " " + t2);
    ToksStrings(c, left);
    DivergesLater(Toks(c, left), LexAll(t2), wanted, []);
    assert Strings(left) + wanted + [] == Strings(left) + wanted;
  }

  lemma OperatorHasNoString(op: BinaryOp)
    ensures StringToks([OpToken(op)]) == [] && StringToks([TComma]) == []
    ensures StringToks([TLParen]) == [] && StringToks([TRParen]) == []
  {
  }

  lemma {:induction false} CallBreaks(c: FloatCodec, name: string, args: seq<Expr>, rest: string)
    requires IdentText(name) && (forall i :: 0 <= i < |args| ==> Plain(c, args[i]))
    requires exists i :: 0 <= i < |args| && !QuoteFree(args[i])
    ensures Diverges(LexAll(Print(c, Call(name, args)) + rest), ArgStrings(args))
    decreases Call(name, args), 0
  {
    hide LexAll, Diverges, Plain, QuoteFree, StringToks, ArgStrings;
    var t2 := PrintArgs(c, args) + (")" + rest);
    assert Print(c, Call(name, args)) + rest == name + ("(" + t2);
    ArgsBreak(c, args, ")" + rest);
    SingleLexes('(', t2);
    OperatorHasNoString(Add);
    DivergesLater([TLParen], LexAll(t2), ArgStrings(args), []);
    assert [] + ArgStrings(args) + [] == ArgStrings(args);
    WordLexes(name, "(" + t2);
    WordHasNoString(name);
    DivergesLater([TIdent(name)], LexAll("(" + t2), ArgStrings(args), []);
  }

  lemma WordHasNoString(name: string)
    ensures StringToks([TIdent(name)]) == []
  {
  }

  lemma {:induction false} ArgsBreak(c: FloatCodec, args: seq<Expr>, rest: string)
    requires Boundary(rest) && (forall i :: 0 <= i < |args| ==> Plain(c, args[i]))
    requires exists i :: 0 <= i < |args| && !QuoteFree(args[i])
    ensures Diverges(LexAll(PrintArgs(c, args) + rest), ArgStrings(args))
    decreases args, 0
  {
    PlainIsShaped(c, args[0]);
    SplitArgs(c, args, rest);
    hide LexAll, Diverges, Plain, QuoteFree, StringToks, Strings, ArgStrings;
    hide Print, PrintArgs, Lexable, Shaped, Boundary;
    if |args| == 1 {
      QuoteBreaks(c, args[0], rest);
    } else {
      var first, more := Strings(args[0]), ArgStrings(args[1..]);
      var t2 := PrintArgs(c, args[1..]) + rest;
      var t1 := "," + (" " + t2);
      if !QuoteFree(args[0]) {
        QuoteBreaks(c, args[0], t1);
        DivergesMore(LexAll(Print(c, args[0]) + t1), first, more);
      } else {
        var i :| 0 <= i < |args| && !QuoteFree(args[i]);
        var others := args[1..];
        assert others[i - 1] == args[i];
        ArgsBreak(c, others, rest);
        PlainIsLexable(c, args[0]);
        LaterArgBreaks(c, args[0], t2, more);
      }
    }
  }

  lemma SplitArgs(c: FloatCodec, args: seq<Expr>, rest: string)
    requires args != []
    ensures |args| == 1 ==> PrintArgs(c, args) == Print(c, args[0]) && ArgStrings(args) == Strings(args[0])
    ensures |args| > 1 ==>
      && PrintArgs(c, args) + rest == Print(c, args[0]) + ("," + (" " + (PrintArgs(c, args[1..]) + rest)))
      && ArgStrings(args) == Strings(args[0]) + ArgStrings(args[1..])
  {
    hide Print, Strings;
    if |args| == 1 {
      assert args[1..] == [];
      assert Strings(args[0]) + [] == Strings(args[0]);
    }
  }

  lemma LaterArgBreaks(c: FloatCodec, arg: Expr, t2: string, more: seq<string>)
    requires Lexable(c, arg) && Shaped(c, arg) && Diverges(LexAll(t2), more)
    ensures Diverges(LexAll(Print(c, arg) + ("," + (" " + t2))), Strings(arg) + more)
  {
    hide LexAll, Diverges, StringToks, Strings, Print, Toks, Lexable, Shaped, Prepend;
    var t1 := "," + (" " + t2);
    SpaceSkips(t2);
    SingleLexes(',', " " + t2);
    OperatorHasNoString(Add);
    DivergesLater([TComma], LexAll(t2), more, []);
    assert [] + more + [] == more;
    PrintLexes(c, arg, t1);
    ToksStrings(c, arg);
    DivergesLater(Toks(c, arg), LexAll(t1), more, []);
    assert Strings(arg) + more + [] == Strings(arg) + more;
  }

  lemma NoTokens(r: Result<seq<Token>, ParseError>)
    ensures Prepend([], r) == r && StringToks([]) == []
  {
    PrependTwice([], [], r);
  }

  // ---------------------------------------------------------------------------------------------
  // A double that is not one number with a point leaves a gap
  // ---------------------------------------------------------------------------------------------

  lemma {:induction false} MarkToksConcat(c: FloatCodec, ts: Tokens, us: Tokens)
    ensures MarkToks(c, ts + us) == MarkToks(c, ts) + MarkToks(c, us)
    decreases |ts|
  {
    if ts == [] {
      assert ts + us == us;
    } else {
      assert (ts + us)[0] == ts[0] && (ts + us)[1..] == ts[1..] + us;
      MarkToksConcat(c, ts[1..], us);
    }
  }

  lemma SurroundedMarks(c: FloatCodec, op: BinaryOp, l: Tokens, r: Tokens)
    ensures MarkToks(c, [TLParen] + l + [OpToken(op)] + r + [TRParen]) == MarkToks(c, l) + MarkToks(c, r)
  {
    SymbolHasNoMark(c, op, "");
    hide MarkToks;
    MarkToksConcat(c, [TLParen], l);
    MarkToksConcat(c, [TLParen] + l, [OpToken(op)]);
    MarkToksConcat(c, [TLParen] + l + [OpToken(op)], r);
    MarkToksConcat(c, [TLParen] + l + [OpToken(op)] + r, [TRParen]);
  }

  lemma SymbolHasNoMark(c: FloatCodec, op: BinaryOp, name: string)
    ensures MarkToks(c, [OpToken(op)]) == [] && MarkToks(c, [TComma]) == [] && MarkToks(c, [TMinus]) == []
    ensures MarkToks(c, [TLParen]) == [] && MarkToks(c, [TRParen]) == [] && MarkToks(c, [TIdent(name)]) == []
    ensures MarkToks(c, [TIdent(name), TLParen]) == []
  {
    MarkToksConcat(c, [TIdent(name)], [TLParen]);
    assert [TIdent(name), TLParen] == [TIdent(name)] + [TLParen];
  }

  /** Every double of the tree prints as a number that parses back to it. */
  predicate DoublesPrint(c: FloatCodec, e: Expr) {
    match e
    case Lit(lit) => lit.LitDouble? ==> DoublePrints(c, lit.double)
    case Column(_) => true
    case Call(_, args) => forall i :: 0 <= i < |args| ==> DoublesPrint(c, args[i])
    case Unary(_, operand) => DoublesPrint(c, operand)
    case Binary(_, left, right) => DoublesPrint(c, left) && DoublesPrint(c, right)
  }

  lemma LitMarks(c: FloatCodec, lit: Literal)
    requires Plain(c, Lit(lit))
    ensures |MarkToks(c, LitToks(c, lit))| <= |Marks(Lit(lit))|
    ensures MarkToks(c, LitToks(c, lit)) == Marks(Lit(lit)) ==> DoublesPrint(c, Lit(lit))
  {
    match lit
    case LitDouble(d) =>
      if NumberText(c.format(d)) {
        NumberIsOneToken(c, d);
        assert [TNumber(c.format(d))][1..] == [];
        assert MarkToks(c, LitToks(c, lit)) == MarkOf(c, TNumber(c.format(d)));
      }
    case LitInteger(n) => assert forall k :: k in Digits(n) ==> IsDigit(k);
    case _ =>
  }

  lemma ShorterPrefix(a: seq<Mark>, b: seq<Mark>, x: seq<Mark>, y: seq<Mark>)
    requires a + b == x + y && |a| <= |x| && |b| <= |y|
    ensures a == x && b == y
  {
    assert |a + b| == |x + y|;
    assert a == (a + b)[..|a|] && x == (x + y)[..|x|];
    assert b == (a + b)[|a|..] && y == (x + y)[|x|..];
  }

  /** The tokens of a tree carry at most its marks; if they carry exactly them, every double prints as a number
      that parses back to it. */
  lemma {:induction false} TreeMarks(c: FloatCodec, e: Expr)
    requires Plain(c, e)
    ensures |MarkToks(c, Toks(c, e))| <= |Marks(e)|
    ensures MarkToks(c, Toks(c, e)) == Marks(e) ==> DoublesPrint(c, e)
    decreases e, 1
  {
    hide MarkToks, LitToks, DoubleToks;
    match e
    case Lit(lit) => LitMarks(c, lit);
    case Column(name) => SymbolHasNoMark(c, Add, name);
    case Call(name, args) =>
      ArgTreeMarks(c, args);
      SymbolHasNoMark(c, Add, name);
      MarkToksConcat(c, [TIdent(name), TLParen], ArgToks(c, args));
      MarkToksConcat(c, [TIdent(name), TLParen] + ArgToks(c, args), [TRParen]);
    case Unary(op, operand) =>
      TreeMarks(c, operand);
      SymbolHasNoMark(c, Add, "not");
      MarkToksConcat(c, [if op == Neg then TMinus else TIdent("not")], Toks(c, operand));
    case Binary(op, left, right) =>
      TreeMarks(c, left);
      TreeMarks(c, right);
      SurroundedMarks(c, op, Toks(c, left), Toks(c, right));
      if MarkToks(c, Toks(c, e)) == Marks(e) {
        ShorterPrefix(MarkToks(c, Toks(c, left)), MarkToks(c, Toks(c, right)), Marks(left), Marks(right));
      }
  }

  lemma {:induction false} ArgTreeMarks(c: FloatCodec, args: seq<Expr>)
    requires forall i :: 0 <= i < |args| ==> Plain(c, args[i])
    ensures |MarkToks(c, ArgToks(c, args))| <= |ArgMarks(args)|
    ensures MarkToks(c, ArgToks(c, args)) == ArgMarks(args) ==> forall i :: 0 <= i < |args| ==> DoublesPrint(c, args[i])
    decreases args, 0
  {
    hide MarkToks, Plain, DoublesPrint, Marks, Toks;
    if args == [] {
      NoMarks(c);
    } else if |args| == 1 {
      TreeMarks(c, args[0]);
      assert args[1..] == [];
      assert ArgMarks(args) == Marks(args[0]) + [] == Marks(args[0]);
    } else {
      TreeMarks(c, args[0]);
      ArgTreeMarks(c, args[1..]);
      SymbolHasNoMark(c, Add, "");
      var first, more := Toks(c, args[0]), ArgToks(c, args[1..]);
      MarkToksConcat(c, first, [TComma]);
      MarkToksConcat(c, first + [TComma], more);
      assert MarkToks(c, ArgToks(c, args)) == MarkToks(c, first) + MarkToks(c, more);
      if MarkToks(c, ArgToks(c, args)) == ArgMarks(args) {
        ShorterPrefix(MarkToks(c, first), MarkToks(c, more), Marks(args[0]), ArgMarks(args[1..]));
        forall i | 0 <= i < |args|
          ensures DoublesPrint(c, args[i])
        {
          assert i > 0 ==> args[i] == args[1..][i - 1];
        }
      }
    }
  }

  lemma NoMarks(c: FloatCodec)
    ensures MarkToks(c, []) == []
  {
  }

  // ---------------------------------------------------------------------------------------------
  // The exact condition
  // ---------------------------------------------------------------------------------------------

  lemma {:induction false} PlainIsPrintable(c: FloatCodec, e: Expr)
    requires Plain(c, e) && QuoteFree(e) && DoublesPrint(c, e)
    ensures Printable(c, e)
  {
    match e
    case Lit(_) =>
    case Column(_) =>
    case Call(_, args) =>
      forall i | 0 <= i < |args|
        ensures Printable(c, args[i])
      {
        PlainIsPrintable(c, args[i]);
      }
    case Unary(_, operand) => PlainIsPrintable(c, operand);
    case Binary(_, left, right) =>
      PlainIsPrintable(c, left);
      PlainIsPrintable(c, right);
  }

  /** The tokens of a text that parses carry the parsed tree's marks, in order. */
  lemma ParsedTokens(c: FloatCodec, text: string, e: Expr)
    requires ParseText(c, text) == Ok(e)
    ensures ParserMade(e) && LexAll(text).Ok? && MarkToks(c, LexAll(text).value) == Marks(e)
  {
    hide LexAll, ParseOr, MarkToks, Marks, ParserMade, Lexical;
    var ts := LexAll(text).value;
    LexedIsLexical(text);
    OrGood(c, ts);
    NoMarks(c);
    assert [] + MarkToks(c, ts) == MarkToks(c, ts) && Marks(e) + [] == Marks(e);
  }

  /** A tree that comes back from its printed form is printable. */
  lemma SurvivorsArePrintable(c: FloatCodec, e: Expr)
    requires Shaped(c, e) && ParseText(c, Print(c, e)) == Ok(e)
    ensures Printable(c, e)
  {
    hide LexAll, ParseText, Print, Toks, MarkToks, Marks, StringToks, Strings, Printable, Shaped, ParserMade;
    ParsedTokens(c, Print(c, e), e);
    var ts := LexAll(Print(c, e)).value;
    assert Print(c, e) + "" == Print(c, e);
    if QuoteFree(e) {
      PlainIsLexable(c, e);
      EndIsBoundary();
      LexEmpty();
      PrintLexes(c, e, "");
      assert Toks(c, e) + [] == Toks(c, e);
      TreeMarks(c, e);
      PlainIsPrintable(c, e);
    } else {
      StringsOfToks(c, ts);
      StringsOfTree(e);
      QuoteBreaks(c, e, "");
    }
  }

  /** For every tree whose doubles have texts of the shape strconv gives: parsing the printed form gives the same tree
      if and only if its integers are non-negative int64s, its doubles print as one number with a point that parses
      back to them, its strings contain no single quote, and its names are identifiers other than true, false,
      null and not. */
  lemma RoundTripExactly(c: FloatCodec, e: Expr)
    requires Shaped(c, e)
    ensures ParseText(c, Print(c, e)) == Ok(e) <==> Printable(c, e)
  {
    hide ParseText, Printable, Shaped;
    if Printable(c, e) {
      RoundTrip(c, e);
    }
    if ParseText(c, Print(c, e)) == Ok(e) {
      SurvivorsArePrintable(c, e);
    }
  }

  predicate NoDoubles(e: Expr) {
    match e
    case Lit(lit) => !lit.LitDouble?
    case Column(_) => true
    case Call(_, args) => forall i :: 0 <= i < |args| ==> NoDoubles(args[i])
    case Unary(_, operand) => NoDoubles(operand)
    case Binary(_, left, right) => NoDoubles(left) && NoDoubles(right)
  }

  /** Trees without doubles need no hypothesis about their texts. */
  lemma {:induction false} NoDoublesIsShaped(c: FloatCodec, e: Expr)
    requires NoDoubles(e)
    ensures Shaped(c, e)
  {
    match e
    case Lit(_) =>
    case Column(_) =>
    case Call(_, args) =>
      forall i | 0 <= i < |args|
        ensures Shaped(c, args[i])
      {
        NoDoublesIsShaped(c, args[i]);
      }
    case Unary(_, operand) => NoDoublesIsShaped(c, operand);
    case Binary(_, left, right) =>
      NoDoublesIsShaped(c, left);
      NoDoublesIsShaped(c, right);
  }

  /** Texts of digits and points have that shape. */
  lemma NumberIsShaped(c: FloatCodec, d: Double)
    requires NumberText(c.format(d))
    ensures ShapedDouble(c, d)
  {
    NumberIsOneToken(c, d);
    var ts := [TNumber(c.format(d))];
    assert ts[1..] == [] && MarkToks(c, ts) == MarkOf(c, ts[0]) && StringToks(ts) == [];
  }

  /** So have negative numbers, as long as the text without its sign does not parse to them. */
  lemma NegativeIsShaped(c: FloatCodec, d: Double, text: string)
    requires NumberText(text) && c.format(d) == "-" + text && c.parse(text) != Some(d)
    ensures ShapedDouble(c, d)
  {
    hide LexAll, NumberText, Boundary;
    var ts := [TMinus, TNumber(text)];
    forall rest | Boundary(rest)
      ensures LexAll(c.format(d) + rest) == Prepend(ts, LexAll(rest))
    {
      MinusLexes(text, rest);
    }
    EndIsBoundary();
    LexEmpty();
    assert c.format(d) + "" == c.format(d);
    MinusLexes(text, "");
    assert ts + [] == ts;
    assert LexAll(c.format(d)) == Ok(ts);
    MarksOfNegative(c, text);
  }

  lemma MarksOfNegative(c: FloatCodec, text: string)
    ensures MarkToks(c, [TMinus, TNumber(text)]) == MarkOf(c, TNumber(text))
    ensures StringToks([TMinus, TNumber(text)]) == []
  {
    var ts := [TMinus, TNumber(text)];
    assert ts[1..] == [TNumber(text)] && [TNumber(text)][1..] == [];
    assert MarkToks(c, ts[1..]) == MarkOf(c, TNumber(text)) + [];
    assert StringToks(ts[1..]) == [] + [];
    assert MarkToks(c, ts) == [] + MarkToks(c, ts[1..]) && StringToks(ts) == [] + StringToks(ts[1..]);
  }

  lemma MinusLexes(text: string, rest: string)
    requires NumberText(text) && Boundary(rest)
    ensures LexAll("-" + text + rest) == Prepend([TMinus, TNumber(text)], LexAll(rest))
  {
    hide LexAll, NumberText, Boundary;
    assert "-" + text + rest == ['-'] + (text + rest);
    SingleLexes('-', text + rest);
    NumberTextLexes(text, rest);
    PrependTwice([TMinus], [TNumber(text)], LexAll(rest));
    assert [TMinus] + [TNumber(text)] == [TMinus, TNumber(text)];
  }

  /** An integral double is printed without a point, and so does not come back, wherever it stands in a tree. */
  lemma {:induction false} PointlessDoubleIsLost(c: FloatCodec, e: Expr, d: Double)
    requires Shaped(c, e) && Contains(e, d) && '.' !in c.format(d)
    ensures ParseText(c, Print(c, e)) != Ok(e)
  {
    hide ParseText, Shaped;
    RoundTripExactly(c, e);
    NotPrintable(c, e, d);
  }

  /** The double is a literal of the tree. */
  predicate Contains(e: Expr, d: Double) {
    match e
    case Lit(lit) => lit == LitDouble(d)
    case Column(_) => false
    case Call(_, args) => exists i :: 0 <= i < |args| && Contains(args[i], d)
    case Unary(_, operand) => Contains(operand, d)
    case Binary(_, left, right) => Contains(left, d) || Contains(right, d)
  }

  lemma {:induction false} NotPrintable(c: FloatCodec, e: Expr, d: Double)
    requires Contains(e, d) && '.' !in c.format(d)
    ensures !Printable(c, e)
  {
    match e
    case Lit(_) =>
    case Column(_) =>
    case Call(_, args) =>
      var i :| 0 <= i < |args| && Contains(args[i], d);
      NotPrintable(c, args[i], d);
    case Unary(_, operand) => NotPrintable(c, operand, d);
    case Binary(_, left, right) =>
      if Contains(left, d) {
        NotPrintable(c, left, d);
      } else {
        NotPrintable(c, right, d);
      }
  }
}
