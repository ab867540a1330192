/** Expression trees and tokens (libs/pipeline-expression/parser.go). */
module ExprSyntax {
  import opened Common

  const MAX_INT64 := 0x7fff_ffff_ffff_ffff

  /** A float64 up to the sign of zero. */
  datatype Double = NaN | Infinite(negative: bool) | Finite(value: real)

  datatype Literal =
    | LitBool(flag: bool)
    | LitInteger(number: int)
    | LitDouble(double: Double)
    | LitString(text: string)
    | LitNull

  datatype UnaryOp = Neg | Not

  datatype BinaryOp = Add | Sub | Mul | Div | Eq | NotEq | Lt | Lte | Gt | Gte | And | Or

  datatype Expr =
    | Lit(lit: Literal)
    | Column(name: string)
    | Call(name: string, args: seq<Expr>)
    | Unary(unaryOp: UnaryOp, operand: Expr)
    | Binary(binaryOp: BinaryOp, left: Expr, right: Expr)

  datatype Token =
    | TIdent(text: string)
    | TNumber(text: string)
    | TString(text: string)
    | TLParen | TRParen | TComma
    | TPlus | TMinus | TStar | TSlash
    | TEq | TNotEq | TLt | TLte | TGt | TGte

  datatype ParseError = UnexpectedEof | Unexpected | InvalidNumber(text: string) | UnterminatedString

  /** strconv's float formatting and parsing, left open. */
  datatype FloatCodec = FloatCodec(format: Double -> string, parse: string -> Option<Double>)

  // ---------------------------------------------------------------------------------------------
  // Characters
  // ---------------------------------------------------------------------------------------------

  predicate IsDigit(c: char) {
    '0' <= c <= '9'
  }

  predicate IsAlpha(c: char) {
    'a' <= c <= 'z' || 'A' <= c <= 'Z'
  }

  predicate IsIdentChar(c: char) {
    IsAlpha(c) || IsDigit(c) || c == '_'
  }

  predicate IsNumberChar(c: char) {
    IsDigit(c) || c == '.'
  }

  predicate IsSpace(c: char) {
    c == ' ' || c == '\t' || c == '\n' || c == '\r' || c == '\U{0b}' || c == '\U{0c}'
  }

  /** The text of an identifier token. */
  predicate IdentText(s: string) {
    s != "" && (IsAlpha(s[0]) || s[0] == '_') && forall i :: 0 <= i < |s| ==> IsIdentChar(s[i])
  }

  predicate NumberText(s: string) {
    s != "" && forall i :: 0 <= i < |s| ==> IsNumberChar(s[i])
  }

  // ---------------------------------------------------------------------------------------------
  // Decimal integers
  // ---------------------------------------------------------------------------------------------

  function DigitChar(d: nat): char
    requires d < 10
  {
    (('0' as int) + d) as char
  }

  function DigitValue(c: char): nat
    requires IsDigit(c)
  {
    (c as int) - ('0' as int)
  }

  /** %d of a non-negative integer. */
  function Digits(n: nat): (s: string)
    ensures s != "" && forall i :: 0 <= i < |s| ==> IsDigit(s[i])
  {
    if n < 10 then [DigitChar(n)] else Digits(n / 10) + [DigitChar(n % 10)]
  }

  function DigitsValue(s: string): nat
    requires forall i :: 0 <= i < |s| ==> IsDigit(s[i])
  {
    if s == "" then 0 else 10 * DigitsValue(s[..|s| - 1]) + DigitValue(s[|s| - 1])
  }

  /** strconv.ParseInt(s, 10, 64) on an unsigned digit string. */
  function ParseInt64(s: string): (r: Option<int>)
    ensures r.Some? ==> 0 <= r.value <= MAX_INT64
  {
    if s == "" || exists i :: 0 <= i < |s| && !IsDigit(s[i]) then None
    else if DigitsValue(s) > MAX_INT64 then None
    else Some(DigitsValue(s))
  }

  lemma {:induction false} DigitsRoundTrip(n: nat)
    ensures DigitsValue(Digits(n)) == n
  {
    if n >= 10 {
      DigitsRoundTrip(n / 10);
      var s := Digits(n / 10) + [DigitChar(n % 10)];
      assert s[..|s| - 1] == Digits(n / 10);
    }
  }
}
