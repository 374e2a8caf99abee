/**
 * compareValues and compareGEPs: the verdict L, G, E or N for a pair of GEP
 * index values, from the strict relations already inferred or, failing that,
 * from the range oracle; and the fold of the per-index verdicts of two GEPs
 * over the same base.
 */
module Compare {
  import opened Opt
  import opened Ranges
  import opened Constraints
  import opened Order

  /** An LLVM Value, identified by its address. */
  type Val = nat

  /** Less, Greater, Equal, or N: nothing known. */
  datatype Verdict = L | G | E | N

  /**
   * What compareValues consults: the Variable of each Value that has one, the
   * LT/GT store, and the range oracle.
   */
  datatype Facts = Facts(variables: map<Val, Var>, r: Rel, ra: Val -> Range)

  predicate FactsValid(f: Facts) {
    |f.r.lt| == |f.r.gt| && forall p :: p in f.variables ==> f.variables[p] < |f.r.lt|
  }

  /** A missing index (NULL) counts as the constant 0. */
  function RangeOf(f: Facts, o: Option<Val>): Range {
    if o.None? then Range(0, 0) else f.ra(o.value)
  }

  /** The store orders o2 above (L) or below (G) o1. */
  function StoreVerdict(f: Facts, o1: Option<Val>, o2: Option<Val>): Option<Verdict>
    requires FactsValid(f)
  {
    if o1.Some? && o2.Some? && o1.value in f.variables && o2.value in f.variables then
      if f.variables[o2.value] in f.r.gt[f.variables[o1.value]] then Some(L)
      else if f.variables[o2.value] in f.r.lt[f.variables[o1.value]] then Some(G)
      else None
    else None
  }

  /** compareValues as written: two equal ranges give E, whatever values they hold. */
  function CompareValuesAsWritten(f: Facts, o1: Option<Val>, o2: Option<Val>): Verdict
    requires FactsValid(f)
  {
    var s := StoreVerdict(f, o1, o2);
    if s.Some? then s.value
    else
      var r1, r2 := RangeOf(f, o1), RangeOf(f, o2);
      if r1 == r2 then E
      else if r1.upper < r2.lower then L
      else if r2.upper < r1.lower then G
      else N
  }

  /**
   * compareValues with E kept for pairs that are equal for certain: the same
   * value, or the same single-point range.
   */
  function CompareValues(f: Facts, o1: Option<Val>, o2: Option<Val>): Verdict
    requires FactsValid(f)
  {
    var s := StoreVerdict(f, o1, o2);
    if s.Some? then s.value
    else
      var r1, r2 := RangeOf(f, o1), RangeOf(f, o2);
      if r1 == r2 && (o1 == o2 || r1.lower == r1.upper) then E
      else if r1.upper < r2.lower then L
      else if r2.upper < r1.lower then G
      else N
  }

  /** The integer an index holds at run time; a missing index is 0. */
  function ValueOf(env: Val -> int, o: Option<Val>): int {
    if o.None? then 0 else env(o.value)
  }

  /**
   * env (values of Values) and venv (values of Variables) agree with each
   * other, with the oracle's ranges and with the store.
   */
  ghost predicate Models(f: Facts, env: Val -> int, venv: Var -> int)
    requires FactsValid(f)
  {
    (forall p :: Contains(f.ra(p), env(p))) &&
    Sound(f.r, venv) &&
    (forall p :: p in f.variables ==> venv(f.variables[p]) == env(p))
  }

  /** Each verdict of compareValues holds of the run-time values. */
  lemma CompareValuesSound(f: Facts, env: Val -> int, venv: Var -> int, o1: Option<Val>, o2: Option<Val>)
    requires FactsValid(f) && Models(f, env, venv)
    ensures CompareValues(f, o1, o2) == L ==> ValueOf(env, o1) < ValueOf(env, o2)
    ensures CompareValues(f, o1, o2) == G ==> ValueOf(env, o1) > ValueOf(env, o2)
    ensures CompareValues(f, o1, o2) == E ==> ValueOf(env, o1) == ValueOf(env, o2)
  {
    var v1, v2 := ValueOf(env, o1), ValueOf(env, o2);
    assert Contains(RangeOf(f, o1), v1) && Contains(RangeOf(f, o2), v2) by {
      if o1.Some? { assert Contains(f.ra(o1.value), env(o1.value)); }
      if o2.Some? { assert Contains(f.ra(o2.value), env(o2.value)); }
    }
    if StoreVerdict(f, o1, o2).Some? {
      var x, y := f.variables[o1.value], f.variables[o2.value];
      assert venv(x) == v1 && venv(y) == v2;
    }
  }

  /**
   * As written, two indexes that the oracle bounds by the same range [0, 10]
   * get E although they may hold 1 and 0; the corrected comparison says N.
   */
  lemma CompareValuesAsWrittenEqualRanges()
    ensures var f := Facts(map[], Rel([], []), _ => Range(0, 10));
            CompareValuesAsWritten(f, Some(1), Some(2)) == E &&
            Models(f, v => if v == 1 then 1 else 0, _ => 0) &&
            CompareValues(f, Some(1), Some(2)) == N
  {
  }

  // ---------------------------------------------------------------------
  // Folding the verdicts of the index pairs

  /** One step of compareGEPs' loop: L and G combine with E and themselves, and clash otherwise. */
  function Combine(acc: Verdict, c: Verdict): Verdict {
    match c
    case L => if acc == L || acc == E then L else N
    case G => if acc == G || acc == E then G else N
    case N => N
    case E => acc
  }

  function FoldFrom(acc: Verdict, vs: seq<Verdict>): Verdict
    decreases |vs|
  {
    if vs == [] then acc else FoldFrom(Combine(acc, vs[0]), vs[1..])
  }

  /** The overall verdict stated directly: N on any N or on both L and G; else L, G, or E. */
  function Overall(vs: seq<Verdict>): Verdict {
    if N in vs || (L in vs && G in vs) then N
    else if L in vs then L
    else if G in vs then G
    else E
  }

  lemma {:induction false} FoldIsOverall(acc: Verdict, vs: seq<Verdict>)
    ensures FoldFrom(acc, vs) == Overall([acc] + vs)
    decreases |vs|
  {
    if vs != [] {
      FoldIsOverall(Combine(acc, vs[0]), vs[1..]);
      var c := vs[0];
      var rest := vs[1..];
      assert [acc] + vs == [acc, c] + rest;
      var a := [Combine(acc, c)] + rest;
      var b := [acc, c] + rest;
      assert forall x :: x in a <==> x == Combine(acc, c) || x in rest;
      assert forall x :: x in b <==> x == acc || x == c || x in rest;
      assert Overall(a) == Overall(b);
    }
  }

  /** The per-pair verdicts of the corrected compareValues; the shorter index list is padded with NULL. */
  function At(g: seq<Val>, k: nat): Option<Val> {
    if k < |g| then Some(g[k]) else None
  }

  function PairVerdicts(f: Facts, g1: seq<Val>, g2: seq<Val>): (vs: seq<Verdict>)
    requires FactsValid(f)
    ensures |vs| == if |g1| < |g2| then |g2| else |g1|
  {
    seq(if |g1| < |g2| then |g2| else |g1|, k requires 0 <= k => CompareValues(f, At(g1, k), At(g2, k)))
  }

  /**
   * compareGEPs: walk both index lists together, folding the verdicts from
   * E; stop with N at the first incomparable pair.
   */
  method CompareGEPs(f: Facts, g1: seq<Val>, g2: seq<Val>) returns (res: Verdict)
    requires FactsValid(f)
    ensures res == Overall(PairVerdicts(f, g1, g2))
  {
    ghost var vs := PairVerdicts(f, g1, g2);
    res := E;
    var i1, i2 := 0, 0;
    ghost var k := 0;
    while i1 != |g1| || i2 != |g2|
      invariant 0 <= k <= |vs|
      invariant i1 == (if k < |g1| then k else |g1|) && i2 == (if k < |g2| then k else |g2|)
      invariant res == FoldFrom(E, vs[..k])
      decreases |vs| - k
    {
      var v1 := if i1 == |g1| then None else Some(g1[i1]);
      var v2 := if i2 == |g2| then None else Some(g2[i2]);
      assert v1 == At(g1, k) && v2 == At(g2, k);
      var c := CompareValues(f, v1, v2);
      FoldSnoc(E, vs[..k], c);
      assert vs[..k + 1] == vs[..k] + [c];
      if c == L {
        res := if res == L || res == E then L else N;
      } else if c == G {
        res := if res == G || res == E then G else N;
      } else if c == N {
        FoldIsOverall(E, vs[..k + 1]);
        OverallN(vs, k);
        return N;
      }
      if i1 != |g1| {
        i1 := i1 + 1;
      }
      if i2 != |g2| {
        i2 := i2 + 1;
      }
      k := k + 1;
    }
    assert vs[..k] == vs;
    FoldIsOverall(E, vs);
    assert forall x :: x in [E] + vs <==> x == E || x in vs;
  }

  lemma {:induction false} FoldSnoc(acc: Verdict, vs: seq<Verdict>, c: Verdict)
    ensures FoldFrom(acc, vs + [c]) == Combine(FoldFrom(acc, vs), c)
    decreases |vs|
  {
    if vs == [] {
      assert [c][1..] == [];
    } else {
      assert (vs + [c])[1..] == vs[1..] + [c];
      FoldSnoc(Combine(acc, vs[0]), vs[1..], c);
    }
  }

  lemma OverallN(vs: seq<Verdict>, k: nat)
    requires k < |vs| && vs[k] == N
    ensures Overall(vs) == N
  {
  }

  /**
   * With the corrected compareValues, an overall L means every index of the
   * first GEP is at most the matching index of the second, and one is
   * smaller.
   */
  lemma CompareGEPsLess(f: Facts, env: Val -> int, venv: Var -> int, g1: seq<Val>, g2: seq<Val>)
    requires FactsValid(f) && Models(f, env, venv)
    requires Overall(PairVerdicts(f, g1, g2)) == L
    ensures forall k :: 0 <= k < |PairVerdicts(f, g1, g2)| ==> ValueOf(env, At(g1, k)) <= ValueOf(env, At(g2, k))
    ensures exists k :: 0 <= k < |PairVerdicts(f, g1, g2)| && ValueOf(env, At(g1, k)) < ValueOf(env, At(g2, k))
  {
    var vs := PairVerdicts(f, g1, g2);
    forall k | 0 <= k < |vs| ensures ValueOf(env, At(g1, k)) <= ValueOf(env, At(g2, k)) {
      CompareValuesSound(f, env, venv, At(g1, k), At(g2, k));
      assert vs[k] != N && vs[k] != G;
    }
    var k :| 0 <= k < |vs| && vs[k] == L;
    CompareValuesSound(f, env, venv, At(g1, k), At(g2, k));
  }

  /** The mirror image: an overall G means every index is at least its partner, one larger. */
  lemma CompareGEPsGreater(f: Facts, env: Val -> int, venv: Var -> int, g1: seq<Val>, g2: seq<Val>)
    requires FactsValid(f) && Models(f, env, venv)
    requires Overall(PairVerdicts(f, g1, g2)) == G
    ensures forall k :: 0 <= k < |PairVerdicts(f, g1, g2)| ==> ValueOf(env, At(g1, k)) >= ValueOf(env, At(g2, k))
    ensures exists k :: 0 <= k < |PairVerdicts(f, g1, g2)| && ValueOf(env, At(g1, k)) > ValueOf(env, At(g2, k))
  {
    var vs := PairVerdicts(f, g1, g2);
    forall k | 0 <= k < |vs| ensures ValueOf(env, At(g1, k)) >= ValueOf(env, At(g2, k)) {
      CompareValuesSound(f, env, venv, At(g1, k), At(g2, k));
      assert vs[k] != N && vs[k] != L;
    }
    var k :| 0 <= k < |vs| && vs[k] == G;
    CompareValuesSound(f, env, venv, At(g1, k), At(g2, k));
  }

  /**
   * As written, a[i].x against a[j].y with i and j both in [0, 10] folds E
   * and L into L, although i = 1, j = 0 puts the first above the second.
   */
  lemma CompareGEPsAsWrittenUnsound()
    ensures var f := Facts(map[], Rel([], []), v => if v == 3 then Range(0, 0) else if v == 4 then Range(1, 1) else Range(0, 10));
            var env := v => if v == 1 then 1 else if v == 4 then 1 else 0;
            Models(f, env, _ => 0) &&
            Overall([CompareValuesAsWritten(f, Some(1), Some(2)), CompareValuesAsWritten(f, Some(3), Some(4))]) == L &&
            env(1) > env(2) &&
            Overall(PairVerdicts(f, [1, 3], [2, 4])) == N
  {
    var f := Facts(map[], Rel([], []), v => if v == 3 then Range(0, 0) else if v == 4 then Range(1, 1) else Range(0, 10));
    var vs := PairVerdicts(f, [1, 3], [2, 4]);
    assert vs[0] == N;
  }
}
