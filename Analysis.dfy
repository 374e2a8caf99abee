/**
 * The alias query of the strict-relations pass.  Two pointers do not alias
 * when the arena records one strictly below or above the other; otherwise the
 * query falls through to the next analysis in the chain, whose answer is a
 * parameter here.
 */
module Analysis {
  import opened Constraints
  import opened Order
  import opened VariableArena
  import opened Worklist
  import Compare

  datatype AliasResult = NoAlias | MayAlias | PartialAlias | MustAlias

  /** The arena orders v2 strictly against v1. */
  predicate Ordered(r: Rel, v1: Var, v2: Var)
    requires |r.lt| == |r.gt| && v1 < |r.lt|
  {
    v2 in r.lt[v1] || v2 in r.gt[v1]
  }

  /** With the LT/GT mirror the verdict does not depend on the order of the query. */
  lemma OrderedSymmetric(r: Rel, v1: Var, v2: Var)
    requires Consistent(r) && v1 < |r.lt| && v2 < |r.lt|
    ensures Ordered(r, v1, v2) <==> Ordered(r, v2, v1)
  {
    assert v2 in r.lt[v1] <==> v1 in r.gt[v2];
    assert v1 in r.lt[v2] <==> v2 in r.gt[v1];
  }

  /** Ordered pointers hold different addresses under any valuation the arena is sound for. */
  lemma OrderedDistinct(r: Rel, v1: Var, v2: Var, env: Var -> int)
    requires |r.lt| == |r.gt| && v1 < |r.lt| && Sound(r, env) && Ordered(r, v1, v2)
    ensures env(v1) != env(v2)
  {
  }

  lemma ArenaGrows(defs: seq<Constraint>, uses: seq<set<Cid>>, n: nat)
    requires DefsWellFormed(defs, n) && Registered(defs, uses)
    ensures DefsWellFormed(defs, n + 1) && Registered(defs, uses + [{}])
  {
    var uses' := uses + [{}];
    forall c | 0 <= c < |defs| ensures Constraints.WellFormed(defs[c], n + 1) {
      assert Constraints.WellFormed(defs[c], n);
    }
    assert forall v :: 0 <= v < |uses| ==> uses'[v] == uses[v];
    assert uses'[|uses|] == {};
  }

  class StrictRelations {
    /** The Variable of every Value seen so far. */
    var variables: map<Compare.Val, Var>
    /** The pass statistics NumQueries and NumNoAlias. */
    var numQueries: nat
    var numNoAlias: nat
    const vars: Variables
    const wle: WorkListEngine

    ghost predicate Valid()
      reads this, vars, wle
    {
      wle.vars == vars && wle.Valid() &&
      forall p :: p in variables ==> variables[p] < |vars.lt|
    }

    constructor()
      ensures Valid() && variables == map[] && numQueries == 0 && numNoAlias == 0
      ensures vars.lt == [] && wle.defs == [] && wle.worklist == []
    {
      var vs := new Variables();
      vars := vs;
      wle := new WorkListEngine(vs);
      variables := map[];
      numQueries, numNoAlias := 0, 0;
    }

    /** "if (!variables.count(p)) variables[p] = new Variable(p)", then variables[p]. */
    method VariableOf(p: Compare.Val) returns (v: Var)
      requires Valid()
      modifies this`variables, vars
      ensures Valid() && p in variables && v == variables[p]
      ensures p in old(variables) ==> variables == old(variables) && vars.Rel() == old(vars.Rel())
      ensures p !in old(variables) ==>
                variables == old(variables)[p := v] && v == old(|vars.lt|) &&
                vars.lt == old(vars.lt) + [{}] && vars.gt == old(vars.gt) + [{}] &&
                vars.mustalias == old(vars.mustalias) + [{v}]
      ensures |old(vars.lt)| <= |vars.lt| && forall w :: 0 <= w < |old(vars.lt)| ==>
                vars.lt[w] == old(vars.lt[w]) && vars.gt[w] == old(vars.gt[w])
    {
      if p !in variables {
        ArenaGrows(wle.defs, vars.uses, |vars.lt|);
        v := vars.NewVariable();
        variables := variables[p := v];
      } else {
        v := variables[p];
      }
    }

    /**
     * alias(LocA, LocB): both pointers get a Variable if they had none; the
     * answer is NoAlias when one is strictly ordered against the other, and
     * the next analysis's answer (fallback) otherwise.
     */
    method Alias(p1: Compare.Val, p2: Compare.Val, fallback: AliasResult) returns (res: AliasResult)
      requires Valid()
      modifies this`variables, this`numQueries, this`numNoAlias, vars
      ensures Valid() && p1 in variables && p2 in variables
      ensures res == if Ordered(vars.Rel(), variables[p1], variables[p2]) then NoAlias else fallback
      ensures numQueries == old(numQueries) + 1
      ensures numNoAlias == old(numNoAlias) + if Ordered(vars.Rel(), variables[p1], variables[p2]) then 1 else 0
      ensures p1 == p2 || p1 !in old(variables) || p2 !in old(variables) ==> res == fallback
      ensures |old(vars.lt)| <= |vars.lt|
      ensures forall w :: 0 <= w < |old(vars.lt)| ==> vars.lt[w] == old(vars.lt[w]) && vars.gt[w] == old(vars.gt[w])
    {
      numQueries := numQueries + 1;
      var v1 := VariableOf(p1);
      var v2 := VariableOf(p2);
      assert variables[p1] == v1;
      if v2 in vars.lt[v1] || v2 in vars.gt[v1] {
        numNoAlias := numNoAlias + 1;
        res := NoAlias;
      } else {
        res := fallback;
      }
      OrderedSymmetric(vars.Rel(), v1, v2);
    }
  }
}
