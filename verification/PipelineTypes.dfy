/** The pipeline type lattice (libs/pipeline-expression/types.go). */
module PipelineTypes {
  import opened Common

  datatype Field = Field(name: string, ty: PipelineType)

  datatype PipelineType =
    | Boolean | Integer | Long | DoubleType | Decimal | Text | Date | Timestamp | Geometry
    | Array(inner: PipelineType)
    | Struct(fields: seq<Field>)

  predicate IsNumeric(t: PipelineType) {
    t.Integer? || t.Long? || t.DoubleType? || t.Decimal?
  }

  predicate IsTextual(t: PipelineType) {
    t.Text?
  }

  predicate IsTemporal(t: PipelineType) {
    t.Date? || t.Timestamp?
  }

  /** Structural equality, field by field and in order. */
  predicate Equal(t: PipelineType, u: PipelineType)
    ensures Equal(t, u) <==> t == u
    decreases t, 1
  {
    match (t, u)
    case (Array(a), Array(b)) => Equal(a, b)
    case (Struct(fs), Struct(gs)) =>
      EqualFields(fs, gs)
    case (Array(_), _) => false
    case (Struct(_), _) => false
    case _ => t == u
  }

  predicate EqualFields(fs: seq<Field>, gs: seq<Field>)
    ensures EqualFields(fs, gs) <==> fs == gs
    decreases fs, 0
  {
    if fs == [] || gs == [] then |fs| == |gs| else
    assert fs == [fs[0]] + fs[1..] && gs == [gs[0]] + gs[1..];
    fs[0].name == gs[0].name && Equal(fs[0].ty, gs[0].ty) && EqualFields(fs[1..], gs[1..])
  }

  /** Integer < Long < Double < Decimal; None outside the numeric family. */
  function NumericRank(t: PipelineType): Option<nat> {
    match t
    case Integer => Some(0)
    case Long => Some(1)
    case DoubleType => Some(2)
    case Decimal => Some(3)
    case _ => None
  }

  /** `from` widens silently to `to`. */
  predicate CanPromote(from: PipelineType, to: PipelineType) {
    if Equal(from, to) then true
    else if NumericRank(from).Some? && NumericRank(to).Some? then
      NumericRank(from).value <= NumericRank(to).value
    else if from.Date? && to.Timestamp? then true
    else if from.Array? && to.Array? then CanPromote(from.inner, to.inner)
    else false
  }

  function Promote(left: PipelineType, right: PipelineType): Option<PipelineType> {
    if Equal(left, right) then Some(left)
    else if NumericRank(left).Some? && NumericRank(right).Some? then
      Some(if NumericRank(left).value >= NumericRank(right).value then left else right)
    else if (left.Date? && right.Timestamp?) || (left.Timestamp? && right.Date?) then Some(Timestamp)
    else if left.Array? && right.Array? then
      match Promote(left.inner, right.inner)
      case None => None
      case Some(inner) => Some(Array(inner))
    else None
  }

  // ---------------------------------------------------------------------------------------------
  // A partial order with partial joins
  // ---------------------------------------------------------------------------------------------

  /** CanPromote is reflexive and antisymmetric. */
  lemma {:induction false} PromotionIsAntisymmetric(t: PipelineType, u: PipelineType)
    ensures CanPromote(t, t)
    ensures CanPromote(t, u) && CanPromote(u, t) ==> t == u
  {
    if t.Array? && u.Array? {
      PromotionIsAntisymmetric(t.inner, u.inner);
    }
  }

  lemma {:induction false} PromotionIsTransitive(t: PipelineType, u: PipelineType, v: PipelineType)
    requires CanPromote(t, u) && CanPromote(u, v)
    ensures CanPromote(t, v)
  {
    if t.Array? && u.Array? && v.Array? && t != u && u != v {
      PromotionIsTransitive(t.inner, u.inner, v.inner);
    }
  }

  /** Promote is the least upper bound, and fails exactly when there is no common upper bound. */
  lemma {:induction false} PromoteIsLeastUpperBound(t: PipelineType, u: PipelineType, w: PipelineType)
    ensures Promote(t, u).Some? ==> CanPromote(t, Promote(t, u).value) && CanPromote(u, Promote(t, u).value)
    ensures CanPromote(t, w) && CanPromote(u, w) ==> Promote(t, u).Some? && CanPromote(Promote(t, u).value, w)
    decreases t
  {
    PromotionIsAntisymmetric(t, u);
    if t.Array? && u.Array? && t != u {
      PromoteIsLeastUpperBound(t.inner, u.inner, if w.Array? then w.inner else w);
      if CanPromote(t, w) && CanPromote(u, w) {
        assert w.Array?;
        PromotionIsAntisymmetric(t.inner, t.inner);
        PromotionIsAntisymmetric(u.inner, u.inner);
        assert CanPromote(t.inner, w.inner) && CanPromote(u.inner, w.inner);
      }
    }
  }

  lemma {:induction false} PromoteFailsExactly(t: PipelineType, u: PipelineType)
    ensures Promote(t, u).Some? <==> exists w :: UpperBound(t, u, w)
  {
    if Promote(t, u).Some? {
      PromoteIsLeastUpperBound(t, u, t);
      assert UpperBound(t, u, Promote(t, u).value);
    }
    if w :| UpperBound(t, u, w) {
      PromoteIsLeastUpperBound(t, u, w);
    }
  }

  ghost predicate UpperBound(t: PipelineType, u: PipelineType, w: PipelineType) {
    CanPromote(t, w) && CanPromote(u, w)
  }

  /** Two least upper bounds of the same elements are equal. */
  lemma PromoteCommutes(t: PipelineType, u: PipelineType)
    ensures Promote(t, u) == Promote(u, t)
  {
    if Promote(t, u).Some? {
      var j := Promote(t, u).value;
      PromoteIsLeastUpperBound(t, u, j);
      PromoteIsLeastUpperBound(u, t, j);
      PromoteIsLeastUpperBound(t, u, Promote(u, t).value);
      PromoteIsLeastUpperBound(u, t, Promote(u, t).value);
      PromotionIsAntisymmetric(j, Promote(u, t).value);
    } else if Promote(u, t).Some? {
      PromoteIsLeastUpperBound(u, t, Promote(u, t).value);
      PromoteIsLeastUpperBound(t, u, Promote(u, t).value);
    }
  }

  function PromoteWith(a: Option<PipelineType>, t: PipelineType): Option<PipelineType> {
    if a.None? then None else Promote(a.value, t)
  }

  /** j is the least upper bound of three types. */
  ghost predicate IsJoin(t: PipelineType, u: PipelineType, v: PipelineType, j: PipelineType) {
    && CanPromote(t, j) && CanPromote(u, j) && CanPromote(v, j)
    && forall w :: CanPromote(t, w) && CanPromote(u, w) && CanPromote(v, w) ==> CanPromote(j, w)
  }

  lemma LeftJoin(t: PipelineType, u: PipelineType, v: PipelineType)
    ensures var j := PromoteWith(Promote(t, u), v);
      && (j.Some? ==> IsJoin(t, u, v, j.value))
      && (j.None? ==> forall w :: !(CanPromote(t, w) && CanPromote(u, w) && CanPromote(v, w)))
  {
    var j := PromoteWith(Promote(t, u), v);
    if j.Some? {
      var m := Promote(t, u).value;
      PromoteIsLeastUpperBound(t, u, m);
      PromoteIsLeastUpperBound(m, v, j.value);
      PromotionIsTransitive(t, m, j.value);
      PromotionIsTransitive(u, m, j.value);
    }
    forall w | CanPromote(t, w) && CanPromote(u, w) && CanPromote(v, w)
      ensures j.Some? && CanPromote(j.value, w)
    {
      PromoteIsLeastUpperBound(t, u, w);
      PromoteIsLeastUpperBound(Promote(t, u).value, v, w);
    }
  }

  /** Promoting three types gives the same result, or the same failure, in either grouping. */
  lemma PromoteIsAssociative(t: PipelineType, u: PipelineType, v: PipelineType)
    ensures PromoteWith(Promote(t, u), v) == PromoteWith(Promote(u, v), t)
  {
    var a, b := PromoteWith(Promote(t, u), v), PromoteWith(Promote(u, v), t);
    LeftJoin(t, u, v);
    LeftJoin(u, v, t);
    if a.Some? && b.Some? {
      PromotionIsAntisymmetric(a.value, b.value);
    }
  }

  // ---------------------------------------------------------------------------------------------
  // Which widenings there are
  // ---------------------------------------------------------------------------------------------

  /** The next wider type: Integer, Long, Double, Decimal; Date, Timestamp; arrays element by element. */
  function Wider(t: PipelineType): Option<PipelineType> {
    match t
    case Integer => Some(Long)
    case Long => Some(DoubleType)
    case DoubleType => Some(Decimal)
    case Date => Some(Timestamp)
    case Array(inner) => if Wider(inner).Some? then Some(Array(Wider(inner).value)) else None
    case _ => None
  }

  function StepsLeft(t: PipelineType): nat {
    match t
    case Integer => 3
    case Long => 2
    case DoubleType => 1
    case Date => 1
    case Array(inner) => StepsLeft(inner)
    case _ => 0
  }

  lemma {:induction false} WiderIsCloser(t: PipelineType)
    ensures Wider(t).Some? ==> StepsLeft(Wider(t).value) + 1 == StepsLeft(t)
  {
    if t.Array? {
      WiderIsCloser(t.inner);
    }
  }

  predicate Reaches(t: PipelineType, u: PipelineType)
    decreases StepsLeft(t)
  {
    WiderIsCloser(t);
    t == u || (Wider(t).Some? && Reaches(Wider(t).value, u))
  }

  lemma {:induction false} ArraysReach(t: PipelineType, u: PipelineType)
    ensures Reaches(Array(t), Array(u)) <==> Reaches(t, u)
    decreases StepsLeft(t)
  {
    WiderIsCloser(t);
    if t != u && Wider(t).Some? {
      ArraysReach(Wider(t).value, u);
    }
  }

  lemma {:induction false} ArraysReachArrays(t: PipelineType, u: PipelineType)
    requires t.Array? && Reaches(t, u)
    ensures u.Array?
    decreases StepsLeft(t)
  {
    WiderIsCloser(t);
    if t != u {
      ArraysReachArrays(Wider(t).value, u);
    }
  }

  /** A type widens to another exactly when single widenings lead there. */
  lemma {:induction false} PromotionIsWidening(t: PipelineType, u: PipelineType)
    ensures CanPromote(t, u) <==> Reaches(t, u)
    decreases t
  {
    if t.Array? {
      if u.Array? {
        PromotionIsWidening(t.inner, u.inner);
        ArraysReach(t.inner, u.inner);
        PromotionIsAntisymmetric(t.inner, t.inner);
      } else if Reaches(t, u) {
        ArraysReachArrays(t, u);
      }
    } else {
      ScalarsReach(t, u);
    }
  }

  lemma ScalarsReach(t: PipelineType, u: PipelineType)
    requires !t.Array?
    ensures Reaches(t, u) <==>
      || t == u
      || (t.Integer? && (u.Long? || u.DoubleType? || u.Decimal?))
      || (t.Long? && (u.DoubleType? || u.Decimal?))
      || (t.DoubleType? && u.Decimal?)
      || (t.Date? && u.Timestamp?)
  {
    if t.Integer? {
      assert Reaches(t, u) <==> t == u || Reaches(Long, u);
    }
    assert Reaches(Long, u) <==> u == Long || Reaches(DoubleType, u);
    assert Reaches(DoubleType, u) <==> u == DoubleType || Reaches(Decimal, u);
    assert Reaches(Decimal, u) <==> u == Decimal;
    assert Reaches(Timestamp, u) <==> u == Timestamp;
  }
}
