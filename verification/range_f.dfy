/** `RangeF`: a pair of bounds read as the half-open interval `[minimum, maximum)`.
    Inverted or empty bounds are kept as given, never swapped. */
module Ranges {

  datatype RangeF = RangeF(minimum: real, maximum: real) {

    /** Membership in `[minimum, maximum)`. */
    predicate Contains(value: real) {
      value >= minimum && value < maximum
    }

    /** Value equality against an arbitrary object: only another `RangeF`
        with the same two bounds is equal. */
    predicate Equals(obj: Object) {
      match obj
      case Boxed(range) => range.minimum == minimum && range.maximum == maximum
      case Other => false
    }
  }

  /** The argument of `Equals`: either a boxed `RangeF` or something else. */
  datatype Object = Boxed(range: RangeF) | Other

  /** The bounds an inline `v < min || v >= max` rejection test uses reject
      exactly the values the interval does not contain. */
  predicate OutsideInline(value: real, minimum: real, maximum: real) {
    value < minimum || value >= maximum
  }

  lemma InlineTestIsComplement(value: real, minimum: real, maximum: real)
    ensures OutsideInline(value, minimum, maximum) <==> !RangeF(minimum, maximum).Contains(value)
  {
  }

  /** The upper bound itself is never inside. */
  lemma MaximumExcluded(r: RangeF)
    ensures !r.Contains(r.maximum)
  {
  }

  /** The lower bound is inside exactly when the interval is non-empty. */
  lemma MinimumIncludedIffNonEmpty(r: RangeF)
    ensures r.Contains(r.minimum) <==> r.minimum < r.maximum
  {
  }

  /** An inverted or degenerate range contains nothing. */
  lemma InvertedIsEmpty(r: RangeF, value: real)
    requires r.minimum >= r.maximum
    ensures !r.Contains(value)
  {
  }

  /** `Equals` is structural equality on boxed ranges and false otherwise. */
  lemma EqualsIsFieldEquality(r: RangeF, obj: Object)
    ensures r.Equals(obj) <==> obj == Boxed(r)
  {
  }

  lemma EqualsReflexiveSymmetric(a: RangeF, b: RangeF)
    ensures a.Equals(Boxed(a))
    ensures a.Equals(Boxed(b)) <==> b.Equals(Boxed(a))
  {
  }
}
