/**
 * The binary predicates a puzzle registers on an ordered pair of variables.
 * Every predicate receives four arguments: the candidate value of the pruned
 * variable, the value of the variable just assigned, and the values of the two
 * variables' coupled partners. The last three may be missing (`None`): the
 * variable, or its partner, is not assigned, or there is no coupling.
 */
module Constraints {
  import opened Wrappers

  /** The closed set of predicates the puzzles use: `not_equal` and `s_comp`. */
  datatype Constraint = NotEqual | SComp

  /**
   * Python's `x > y` where either operand may be `None`: comparing with `None`
   * raises `TypeError`, modelled here as the result `None`.
   */
  function Greater(x: Option<int>, y: Option<int>): Option<bool> {
    if x.Some? && y.Some? then Some(x.value > y.value) else None
  }

  /** `not_equal(a, b, *rest)`: Python's `a != b`, and an int never equals `None`. */
  function NotEqualHolds(a: int, b: Option<int>): bool {
    Some(a) != b
  }

  /**
   * The body of `s_comp` evaluated in Python's order, short-circuits included:
   * `(not (vc1 > vc2) or (v1 > v2)) and (not (v1 > v2) or (vc1 > vc2))`.
   * `None` means that one of the comparisons raised `TypeError`.
   */
  function SCompBody(v1: int, v2: Option<int>, vc1: Option<int>, vc2: Option<int>): Option<bool> {
    match Greater(vc1, vc2)
    case None => None
    case Some(partnersGreater) =>
      var first := if !partnersGreater then Some(true) else Greater(Some(v1), v2);
      match first
      case None => None
      case Some(false) => Some(false)
      case Some(true) =>
        match Greater(Some(v1), v2)
        case None => None
        case Some(valuesGreater) => if !valuesGreater then Some(true) else Greater(vc1, vc2)
  }

  /**
   * `s_comp`: the result of the body, where a `TypeError` is caught and read as
   * satisfied. It holds vacuously when any compared value is missing, and
   * otherwise exactly when the two values are ordered as their partners are.
   */
  function SCompHolds(v1: int, v2: Option<int>, vc1: Option<int>, vc2: Option<int>): (r: bool)
    ensures v2.None? || vc1.None? || vc2.None? ==> r
    ensures v2.Some? && vc1.Some? && vc2.Some? ==> (r <==> ((v1 > v2.value) <==> (vc1.value > vc2.value)))
  {
    match SCompBody(v1, v2, vc1, vc2)
    case None => true
    case Some(b) => b
  }

  /** Evaluates one registered predicate on the four arguments. */
  function Eval(c: Constraint, v1: int, v2: Option<int>, vc1: Option<int>, vc2: Option<int>): (r: bool)
    ensures c == NotEqual ==> (r <==> (v2.None? || v1 != v2.value))
    ensures c == SComp ==> (r <==> (v2.None? || vc1.None? || vc2.None? ||
                                    ((v1 > v2.value) <==> (vc1.value > vc2.value))))
  {
    match c
    case NotEqual => NotEqualHolds(v1, v2)
    case SComp => SCompHolds(v1, v2, vc1, vc2)
  }

  /**
   * With all four values present and both pairs distinct, `s_comp` gives the
   * same verdict whichever endpoint is the candidate, so checking the edge from
   * either side agrees.
   */
  lemma SCompSymmetric(v1: int, v2: int, vc1: int, vc2: int)
    requires v1 != v2 && vc1 != vc2
    ensures SCompHolds(v1, Some(v2), Some(vc1), Some(vc2)) == SCompHolds(v2, Some(v1), Some(vc2), Some(vc1))
  {
  }

  /**
   * Without the distinctness that `not_equal` adds, `s_comp` is not symmetric:
   * equal values with differently ordered partners pass from one side only.
   */
  lemma SCompAsymmetricOnEqualValues()
    ensures SCompHolds(1, Some(1), Some(1), Some(2))
    ensures !SCompHolds(1, Some(1), Some(2), Some(1))
  {
  }
}
