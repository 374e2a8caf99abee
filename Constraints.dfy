/**
 * The five constraint kinds of the strict-relations engine and what each one
 * asserts about the integer values (addresses) of the variables it relates.
 */
module Constraints {

  /** Handle of a Variable in the analysis' variable arena. */
  type Var = nat

  /** Handle of a constraint registered with the WorkListEngine. */
  type Cid = nat

  datatype Constraint =
    | LT(left: Var, right: Var)          // left < right
    | LE(left: Var, right: Var)          // left <= right
    | REQ(left: Var, right: Var)         // rename equality (copy, cast, x + 0)
    | EQ(left: Var, right: Var)          // sigma: left is a branch-local copy of right
    | PHI(left: Var, operands: seq<Var>) // left joins its operands

  /** The variables a constraint mentions. */
  function VarsOf(c: Constraint): (vs: set<Var>)
    ensures c.left in vs
  {
    match c
    case PHI(l, ops) => {l} + set i | 0 <= i < |ops| :: ops[i]
    case _ => {c.left, c.right}
  }

  /** Every variable of c is a handle below n and a PHI has operands. */
  predicate WellFormed(c: Constraint, n: nat) {
    c.left < n &&
    match c
    case PHI(_, ops) => |ops| > 0 && forall i :: 0 <= i < |ops| ==> ops[i] < n
    case _ => c.right < n
  }

  /** What the constraint asserts about a valuation of the variables. */
  predicate Holds(c: Constraint, env: Var -> int) {
    match c
    case LT(l, r) => env(l) < env(r)
    case LE(l, r) => env(l) <= env(r)
    case REQ(l, r) => env(l) == env(r)
    case EQ(l, r) => env(l) == env(r)
    case PHI(l, ops) => exists i :: 0 <= i < |ops| && env(l) == env(ops[i])
  }

  lemma WellFormedVars(c: Constraint, n: nat)
    requires WellFormed(c, n)
    ensures forall v :: v in VarsOf(c) ==> v < n
  {
  }
}
