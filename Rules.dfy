/**
 * The fact-generation rules of collectConstraintsFromModule, as pure tables:
 * for an addition, a subtraction or a GEP, the sign class of an operand's
 * range (or of the GEP offset) selects REQ, LT or LE; for a pair of sigmas
 * the comparison predicate selects the constraint.  The instruction walk
 * that finds these facts is not modelled; each rule receives the facts.
 */
module Rules {
  import opened Opt
  import opened Ranges
  import opened Constraints

  function Emit(o: Option<Constraint>): seq<Constraint> {
    if o.Some? then [o.value] else []
  }

  /**
   * The table shared by additions and GEPs: a = y + d where d has sign s.
   * Used for "a = x + y" (each operand in turn) and for "p = base + offset".
   */
  function OffsetRule(s: Sign, a: Var, y: Var): (o: Option<Constraint>)
    ensures o.None? <==> s == Unknown
  {
    match s
    case IsZero => Some(REQ(a, y))
    case Positive => Some(LT(y, a))
    case NonNegative => Some(LE(y, a))
    case Negative => Some(LT(a, y))
    case NonPositive => Some(LE(a, y))
    case Unknown => None
  }

  /** a = x + y, with r1 the range of x and r2 the range of y. */
  function AddRule(a: Var, x: Var, y: Var, r1: Range, r2: Range): seq<Constraint> {
    Emit(OffsetRule(Classify(r1), a, y)) + Emit(OffsetRule(Classify(r2), a, x))
  }

  /** a = x - y: what the signs of x and y say about a against y. */
  function SubFirstRule(s1: Sign, s2: Sign, a: Var, y: Var): Option<Constraint> {
    match s1
    case IsZero =>
      (match s2
       case IsZero => Some(REQ(a, y))
       case Positive => Some(LT(a, y))
       case NonNegative => Some(LE(a, y))
       case Negative => Some(LT(y, a))
       case NonPositive => Some(LE(y, a))
       case Unknown => None)
    case Positive =>
      (match s2
       case IsZero => Some(LT(y, a))
       case Negative => Some(LT(y, a))
       case NonPositive => Some(LT(y, a))
       case _ => None)
    case NonNegative =>
      (match s2
       case IsZero => Some(LE(y, a))
       case Negative => Some(LT(y, a))
       case NonPositive => Some(LE(y, a))
       case _ => None)
    case Negative =>
      (match s2
       case IsZero => Some(LT(a, y))
       case Positive => Some(LT(a, y))
       case NonNegative => Some(LT(a, y))
       case _ => None)
    case NonPositive =>
      (match s2
       case IsZero => Some(LE(a, y))
       case Positive => Some(LT(a, y))
       case NonNegative => Some(LE(a, y))
       case _ => None)
    case Unknown => None
  }

  /** a = x - y: what the sign of y says about a against x. */
  function SubSecondRule(s2: Sign, a: Var, x: Var): Option<Constraint> {
    match s2
    case IsZero => Some(REQ(a, x))
    case Positive => Some(LT(a, x))
    case NonNegative => Some(LE(a, x))
    case Negative => Some(LT(x, a))
    case NonPositive => Some(LE(x, a))
    case Unknown => None
  }

  /** a = x - y, with r1 the range of x and r2 the range of y. */
  function SubRule(a: Var, x: Var, y: Var, r1: Range, r2: Range): seq<Constraint> {
    Emit(SubFirstRule(Classify(r1), Classify(r2), a, y)) + Emit(SubSecondRule(Classify(r2), a, x))
  }

  /** p = gep base, ... with r the offset range computed by processGEP. */
  function GepRule(p: Var, base: Var, r: Range): Option<Constraint> {
    OffsetRule(Classify(r), p, base)
  }

  /** The integer comparison predicates a sigma pair can come from. */
  datatype Predicate = Equal | NotEqual | UGT | UGE | ULT | ULE | SGT | SGE | SLT | SLE | Other

  /** The predicate's meaning on two values; unsigned forms read as signed (see README). */
  predicate PredHolds(p: Predicate, a: int, b: int) {
    match p
    case Equal => a == b
    case NotEqual => a != b
    case UGT => a > b
    case SGT => a > b
    case UGE => a >= b
    case SGE => a >= b
    case ULT => a < b
    case SLT => a < b
    case ULE => a <= b
    case SLE => a <= b
    case Other => true
  }

  /**
   * The sigmas of one comparison "op0 pred op1": the copies of op0 (left) and
   * op1 (right) on the true and on the false successor.  None is a missing
   * sigma, or a value that has no Variable.
   */
  datatype SigmaPairs = SigmaPairs(leftTrue: Option<Var>, leftFalse: Option<Var>,
                                   rightTrue: Option<Var>, rightFalse: Option<Var>)

  /** How many of the four sigma slots differ between s and r. */
  function Filled(s: SigmaPairs, r: SigmaPairs): nat {
    (if r.leftTrue != s.leftTrue then 1 else 0) + (if r.leftFalse != s.leftFalse then 1 else 0) +
    (if r.rightTrue != s.rightTrue then 1 else 0) + (if r.rightFalse != s.rightFalse then 1 else 0)
  }

  /**
   * A missing sigma is replaced by the comparison operand itself, but only the
   * first applicable case of the chain is applied.
   */
  function FillMissing(s: SigmaPairs, op0: Option<Var>, op1: Option<Var>): (r: SigmaPairs)
    ensures r.leftTrue == s.leftTrue || (s.leftTrue.None? && r.leftTrue == op0)
    ensures r.leftFalse == s.leftFalse || (s.leftFalse.None? && r.leftFalse == op0)
    ensures r.rightTrue == s.rightTrue || (s.rightTrue.None? && r.rightTrue == op1)
    ensures r.rightFalse == s.rightFalse || (s.rightFalse.None? && r.rightFalse == op1)
    ensures Filled(s, r) <= 1
  {
    if s.leftTrue.None? && s.rightTrue.Some? then s.(leftTrue := op0)
    else if s.leftFalse.None? && s.rightFalse.Some? then s.(leftFalse := op0)
    else if s.rightTrue.None? && s.leftTrue.Some? then s.(rightTrue := op1)
    else if s.rightFalse.None? && s.leftFalse.Some? then s.(rightFalse := op1)
    else s
  }

  /** The constraint drawn from the true-successor sigmas lt (of op0) and rt (of op1). */
  function TrueSigmaRule(p: Predicate, lt: Option<Var>, rt: Option<Var>): Option<Constraint> {
    if lt.None? || rt.None? then None
    else match p
      case UGT => Some(LT(rt.value, lt.value))
      case SGT => Some(LT(rt.value, lt.value))
      case UGE => Some(LE(rt.value, lt.value))
      case SGE => Some(LE(rt.value, lt.value))
      case ULT => Some(LT(lt.value, rt.value))
      case SLT => Some(LT(lt.value, rt.value))
      case ULE => Some(LE(lt.value, rt.value))
      case SLE => Some(LE(lt.value, rt.value))
      case Equal => Some(REQ(lt.value, rt.value))
      case _ => None
  }

  /** The constraint drawn from the false-successor sigmas lf (of op0) and rf (of op1). */
  function FalseSigmaRule(p: Predicate, lf: Option<Var>, rf: Option<Var>): Option<Constraint> {
    if lf.None? || rf.None? then None
    else match p
      case UGT => Some(LE(lf.value, rf.value))
      case SGT => Some(LE(lf.value, rf.value))
      case UGE => Some(LT(lf.value, rf.value))
      case SGE => Some(LT(lf.value, rf.value))
      case ULT => Some(LE(rf.value, lf.value))
      case SLT => Some(LE(rf.value, lf.value))
      case ULE => Some(LT(rf.value, lf.value))
      case SLE => Some(LT(rf.value, lf.value))
      case NotEqual => Some(REQ(lf.value, rf.value))
      case _ => None
  }

  /** All constraints produced by one comparison and its sigmas. */
  function SigmaRule(p: Predicate, s: SigmaPairs, op0: Option<Var>, op1: Option<Var>): seq<Constraint> {
    var f := FillMissing(s, op0, op1);
    Emit(TrueSigmaRule(p, f.leftTrue, f.rightTrue)) + Emit(FalseSigmaRule(p, f.leftFalse, f.rightFalse))
  }

  // ---------------------------------------------------------------------------
  // Soundness of the tables against integer arithmetic

  /** If a = y + d and d has sign s, the constraint the table picks is true. */
  lemma OffsetRuleSound(s: Sign, a: Var, y: Var, d: int, env: Var -> int)
    requires env(a) == env(y) + d && SignHolds(s, d)
    requires OffsetRule(s, a, y).Some?
    ensures Holds(OffsetRule(s, a, y).value, env)
  {
  }

  lemma AddRuleSound(a: Var, x: Var, y: Var, r1: Range, r2: Range, env: Var -> int)
    requires env(a) == env(x) + env(y)
    requires Contains(r1, env(x)) && Contains(r2, env(y))
    ensures forall c :: c in AddRule(a, x, y, r1, r2) ==> Holds(c, env)
  {
    ClassifySound(r1, env(x));
    ClassifySound(r2, env(y));
    if OffsetRule(Classify(r1), a, y).Some? {
      OffsetRuleSound(Classify(r1), a, y, env(x), env);
    }
    if OffsetRule(Classify(r2), a, x).Some? {
      OffsetRuleSound(Classify(r2), a, x, env(y), env);
    }
  }

  lemma SubRuleSound(a: Var, x: Var, y: Var, r1: Range, r2: Range, env: Var -> int)
    requires env(a) == env(x) - env(y)
    requires Contains(r1, env(x)) && Contains(r2, env(y))
    ensures forall c :: c in SubRule(a, x, y, r1, r2) ==> Holds(c, env)
  {
    ClassifySound(r1, env(x));
    ClassifySound(r2, env(y));
  }

  /** A GEP whose offset lies in r is ordered against its base as the table says. */
  lemma GepRuleSound(p: Var, base: Var, r: Range, d: int, env: Var -> int)
    requires env(p) == env(base) + d && Contains(r, d)
    requires GepRule(p, base, r).Some?
    ensures Holds(GepRule(p, base, r).value, env)
  {
    ClassifySound(r, d);
    OffsetRuleSound(Classify(r), p, base, d, env);
  }

  /** On the true successor the predicate holds of the true sigmas. */
  lemma TrueSigmaSound(p: Predicate, lt: Option<Var>, rt: Option<Var>, env: Var -> int)
    requires lt.Some? && rt.Some? && PredHolds(p, env(lt.value), env(rt.value))
    requires TrueSigmaRule(p, lt, rt).Some?
    ensures Holds(TrueSigmaRule(p, lt, rt).value, env)
  {
  }

  /** On the false successor the predicate fails for the false sigmas. */
  lemma FalseSigmaSound(p: Predicate, lf: Option<Var>, rf: Option<Var>, env: Var -> int)
    requires lf.Some? && rf.Some? && !PredHolds(p, env(lf.value), env(rf.value))
    requires FalseSigmaRule(p, lf, rf).Some?
    ensures Holds(FalseSigmaRule(p, lf, rf).value, env)
  {
  }

  /** An equality comparison yields a rename only on its true side, an inequality only on its false side. */
  lemma EqualitySigmas(s: SigmaPairs, op0: Option<Var>, op1: Option<Var>)
    ensures |SigmaRule(Equal, s, op0, op1)| <= 1 && |SigmaRule(NotEqual, s, op0, op1)| <= 1
    ensures forall c :: c in SigmaRule(Equal, s, op0, op1) + SigmaRule(NotEqual, s, op0, op1) ==> c.REQ?
  {
  }
}
