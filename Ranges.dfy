/**
 * Integer ranges as supplied by the range oracle, and the sign classification
 * that the fact-generation rules branch on.
 *
 * A bound is the signed value of an APInt of width MAX_BIT_INT; the sentinels
 * Min and Max are the smallest and largest values of that width.  The range
 * oracle itself is not modelled: callers receive ranges as data or through a
 * function parameter.
 */
module Ranges {

  /** A closed interval [lower, upper]. */
  datatype Range = Range(lower: int, upper: int)

  function Pow2(k: nat): (r: nat)
    ensures r >= 1
  {
    if k == 0 then 1 else 2 * Pow2(k - 1)
  }

  /** The "unbounded below" sentinel for bit width w. */
  function Min(w: nat): int
    requires w >= 1
  {
    -(Pow2(w - 1) as int)
  }

  /** The "unbounded above" sentinel for bit width w. */
  function Max(w: nat): int
    requires w >= 1
  {
    Pow2(w - 1) - 1
  }

  /** The value v is one of the values the range admits. */
  predicate Contains(r: Range, v: int) {
    r.lower <= v <= r.upper
  }

  /** r is the singleton [k, k]. */
  predicate IsSingleton(r: Range, k: int) {
    r.lower == k && r.upper == k
  }

  /**
   * Range::add of the range analysis: a sentinel bound absorbs the sum.
   * Saturation on signed overflow is not modelled.
   */
  function Add(a: Range, b: Range, w: nat): (r: Range)
    requires w >= 1
    ensures forall x, y ::
              (Contains(a, x) && Contains(b, y) && a.lower != Min(w) && b.lower != Min(w) &&
               a.upper != Max(w) && b.upper != Max(w)) ==> Contains(r, x + y)
  {
    Range(if a.lower == Min(w) || b.lower == Min(w) then Min(w) else a.lower + b.lower,
          if a.upper == Max(w) || b.upper == Max(w) then Max(w) else a.upper + b.upper)
  }

  /**
   * The five range shapes the rules distinguish, tested in this order:
   * exactly [0,0], lower > 0, lower >= 0, upper < 0, upper <= 0; anything
   * else is Unknown.
   */
  datatype Sign = IsZero | Positive | NonNegative | Negative | NonPositive | Unknown

  function Classify(r: Range): Sign {
    if r.lower == 0 && r.upper == 0 then IsZero
    else if r.lower > 0 then Positive
    else if r.lower >= 0 then NonNegative
    else if r.upper < 0 then Negative
    else if r.upper <= 0 then NonPositive
    else Unknown
  }

  /** What a sign class says about a single value. */
  predicate SignHolds(s: Sign, v: int) {
    match s
    case IsZero => v == 0
    case Positive => v > 0
    case NonNegative => v >= 0
    case Negative => v < 0
    case NonPositive => v <= 0
    case Unknown => true
  }

  /** The sign of a negated value. */
  function Negate(s: Sign): (n: Sign)
    ensures forall v :: SignHolds(s, v) ==> SignHolds(n, -v)
  {
    match s
    case IsZero => IsZero
    case Positive => Negative
    case NonNegative => NonPositive
    case Negative => Positive
    case NonPositive => NonNegative
    case Unknown => Unknown
  }

  /** Every value of a range satisfies the range's classification. */
  lemma ClassifySound(r: Range, v: int)
    requires Contains(r, v)
    ensures SignHolds(Classify(r), v)
  {
  }

  /** Classification is informative: only a range that straddles zero is Unknown. */
  lemma ClassifyUnknownStraddles(r: Range)
    requires r.lower <= r.upper
    ensures Classify(r) == Unknown <==> r.lower < 0 && r.upper > 0
  {
  }
}
