/** The scalar catalogue (libs/pipeline-expression/catalog.go). */
module Catalog {
  import opened Common
  import opened PipelineTypes
  import Ascii
  import Strings = Text

  /** The catalogued functions; names are matched without regard to case. */
  datatype Fn =
    | TitleCase | LowerFn | UpperFn | TrimFn | CleanString | Concat
    | Abs | Floor | Ceil | Round
    | HaversineMeters | HaversineKm | HaversineMiles | HaversineDistance
    | ToDate | ToTimestamp | Cast | IsNull | IsNotNull | GeomWithin

  function FnOf(name: string): Option<Fn> {
    FnNamed(Ascii.Lower(name))
  }

  function FnNamed(n: string): Option<Fn> {
    if n == "title_case" then Some(TitleCase)
    else if n == "lower" then Some(LowerFn)
    else if n == "upper" then Some(UpperFn)
    else if n == "trim" then Some(TrimFn)
    else if n == "clean_string" then Some(CleanString)
    else if n == "concat" then Some(Concat)
    else if n == "abs" then Some(Abs)
    else if n == "floor" then Some(Floor)
    else if n == "ceil" then Some(Ceil)
    else if n == "round" then Some(Round)
    else FnNamedNext(n)
  }

  /** The names about places, dates, types and nulls. */
  function FnNamedNext(n: string): Option<Fn> {
    if n == "haversine_meters" then Some(HaversineMeters)
    else if n == "haversine_km" then Some(HaversineKm)
    else if n == "haversine_miles" then Some(HaversineMiles)
    else if n == "haversine_distance" then Some(HaversineDistance)
    else if n == "to_date" then Some(ToDate)
    else if n == "to_timestamp" then Some(ToTimestamp)
    else if n == "cast" then Some(Cast)
    else if n == "is_null" then Some(IsNull)
    else if n == "is_not_null" then Some(IsNotNull)
    else if n == "geom_within" then Some(GeomWithin)
    else None
  }

  datatype Constraint = Exactly(ty: PipelineType) | Promotable(ty: PipelineType) | Numeric | Textual | Temporal | Any

  datatype ResultRule = Fixed(ty: PipelineType) | PromoteOf(args: seq<nat>) | TypeFromStringArg(index: nat)

  datatype Signature = Signature(params: seq<Constraint>, result: ResultRule)

  function SignatureOf(f: Fn): Signature {
    match f
    case TitleCase => Signature([Textual], Fixed(Text))
    case LowerFn => Signature([Textual], Fixed(Text))
    case UpperFn => Signature([Textual], Fixed(Text))
    case TrimFn => Signature([Textual], Fixed(Text))
    case CleanString => Signature([Textual], Fixed(Text))
    case Concat => Signature([Textual, Textual], Fixed(Text))
    case Abs => Signature([Numeric], PromoteOf([0]))
    case Floor => Signature([Numeric], PromoteOf([0]))
    case Ceil => Signature([Numeric], PromoteOf([0]))
    case Round => Signature([Numeric], PromoteOf([0]))
    case HaversineMeters => Signature([Numeric, Numeric, Numeric, Numeric], Fixed(DoubleType))
    case HaversineKm => Signature([Numeric, Numeric, Numeric, Numeric], Fixed(DoubleType))
    case HaversineMiles => Signature([Numeric, Numeric, Numeric, Numeric], Fixed(DoubleType))
    case HaversineDistance => Signature([Numeric, Numeric, Numeric, Numeric, Textual], Fixed(DoubleType))
    case ToDate => Signature([Textual], Fixed(Date))
    case ToTimestamp => Signature([Textual], Fixed(Timestamp))
    case Cast => Signature([Any, Exactly(Text)], TypeFromStringArg(1))
    case IsNull => Signature([Any], Fixed(Boolean))
    case IsNotNull => Signature([Any], Fixed(Boolean))
    case GeomWithin => Signature([Exactly(Geometry), Exactly(Geometry)], Fixed(Boolean))
  }

  // ---------------------------------------------------------------------------------------------
  // Type literals
  // ---------------------------------------------------------------------------------------------

  function ScalarLiteral(upper: string): Option<PipelineType> {
    if upper == "BOOLEAN" then Some(Boolean)
    else if upper == "INTEGER" then Some(Integer)
    else if upper == "LONG" then Some(Long)
    else if upper == "DOUBLE" then Some(DoubleType)
    else if upper == "DECIMAL" then Some(Decimal)
    else if upper == "STRING" then Some(Text)
    else if upper == "DATE" then Some(Date)
    else if upper == "TIMESTAMP" then Some(Timestamp)
    else if upper == "GEOMETRY" then Some(Geometry)
    else None
  }

  function ParseTypeLiteral(literal: string): Option<PipelineType>
    decreases |literal|
  {
    var upper := Ascii.Upper(Strings.Trim(literal));
    if ScalarLiteral(upper).Some? then ScalarLiteral(upper)
    else if |upper| >= 7 && upper[..6] == "ARRAY<" && upper[|upper| - 1] == '>' then
      match ParseTypeLiteral(upper[6..|upper| - 1])
      case None => None
      case Some(t) => Some(Array(t))
    else None
  }

  /** How a type is written; structs cannot be. */
  function TypeText(t: PipelineType): string {
    match t
    case Boolean => "BOOLEAN"
    case Integer => "INTEGER"
    case Long => "LONG"
    case DoubleType => "DOUBLE"
    case Decimal => "DECIMAL"
    case Text => "STRING"
    case Date => "DATE"
    case Timestamp => "TIMESTAMP"
    case Geometry => "GEOMETRY"
    case Array(inner) => "ARRAY<" + TypeText(inner) + ">"
    case Struct(_) => ""
  }

  predicate Writable(t: PipelineType) {
    match t
    case Array(inner) => Writable(inner)
    case Struct(_) => false
    case _ => true
  }

  /** Capitals and angle brackets: nothing to trim or to raise. */
  predicate Plain(s: string) {
    forall c :: c in s ==> 'A' <= c <= 'Z' || c == '<' || c == '>'
  }

  lemma {:induction false} TypeTextIsPlain(t: PipelineType)
    requires Writable(t)
    ensures TypeText(t) != "" && Plain(TypeText(t))
  {
    if t.Array? {
      TypeTextIsPlain(t.inner);
    }
  }

  lemma PlainStays(s: string)
    requires Plain(s)
    ensures Ascii.Upper(s) == s && Strings.Trim(s) == s
  {
    assert forall i :: 0 <= i < |s| ==> s[i] in s;
    assert Strings.TrimLeft(s) == s && Strings.TrimRight(s) == s;
  }

  /** A type that is written in any case, with any blanks around it, is read as that type. */
  lemma {:induction false} TypeTextParses(t: PipelineType, s: string)
    requires Writable(t) && Ascii.Upper(Strings.Trim(s)) == TypeText(t)
    ensures ParseTypeLiteral(s) == Some(t)
    decreases t
  {
    if t.Array? {
      var inner, upper := TypeText(t.inner), TypeText(t);
      TypeTextIsPlain(t.inner);
      PlainStays(inner);
      TypeTextParses(t.inner, inner);
      hide ParseTypeLiteral, ScalarLiteral;
      BracketParts(inner);
      ArrayParses(s, upper, inner);
    } else {
      ScalarParses(s, t);
    }
  }

  lemma BracketParts(inner: string)
    ensures
      var s := "ARRAY<" + inner + ">";
      |s| == |inner| + 7 && s[..6] == "ARRAY<" && s[6..|s| - 1] == inner && s[|s| - 1] == '>'
  {
  }

  lemma ScalarParses(s: string, t: PipelineType)
    requires Writable(t) && !t.Array? && Ascii.Upper(Strings.Trim(s)) == TypeText(t)
    ensures ParseTypeLiteral(s) == Some(t)
  {
    assert ScalarLiteral(TypeText(t)) == Some(t);
    hide ScalarLiteral, TypeText;
  }

  lemma ScalarsHaveNoBracket(upper: string)
    requires |upper| >= 6 && upper[5] == '<'
    ensures ScalarLiteral(upper) == None
  {
  }

  lemma LiteralUnfolds(s: string, upper: string)
    requires upper == Ascii.Upper(Strings.Trim(s))
    ensures ScalarLiteral(upper).None? && |upper| >= 7 && upper[..6] == "ARRAY<" && upper[|upper| - 1] == '>' ==>
      ParseTypeLiteral(s) ==
        match ParseTypeLiteral(upper[6..|upper| - 1]) case None => None case Some(t) => Some(Array(t))
  {
    hide ScalarLiteral, Strings.Trim, Ascii.Upper;
  }

  lemma ArrayParses(s: string, upper: string, inner: string)
    requires upper == Ascii.Upper(Strings.Trim(s)) && |upper| >= 7 && upper[..6] == "ARRAY<"
    requires upper[|upper| - 1] == '>' && inner == upper[6..|upper| - 1]
    ensures ParseTypeLiteral(s) ==
      match ParseTypeLiteral(inner) case None => None case Some(t) => Some(Array(t))
  {
    hide ParseTypeLiteral, ScalarLiteral, Strings.Trim, Ascii.Upper;
    assert upper[5] == upper[..6][5] == '<';
    ScalarsHaveNoBracket(upper);
    LiteralUnfolds(s, upper);
  }
}
