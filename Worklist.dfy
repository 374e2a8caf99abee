/**
 * The WorkListEngine: a FIFO queue of constraints with an "in queue" flag per
 * registered constraint, and the resolve routines that update the Variable
 * arena and put back the constraints of every variable they changed.
 */
module Worklist {
  import opened Constraints
  import opened Order
  import opened VariableArena

  /** The constraints Requeue puts back: those registered with a changed variable, except self. */
  function Woken(uses: seq<set<Cid>>, changed: set<Var>, self: Cid): set<Cid> {
    set v, i | v in changed && 0 <= v < |uses| && i in uses[v] && i != self :: i
  }

  /**
   * after is before followed only by woken constraints, every woken
   * constraint is queued, and nothing woken means nothing pushed.
   */
  predicate Requeued(before: seq<Cid>, after: seq<Cid>, woken: set<Cid>) {
    before <= after &&
    (forall k :: |before| <= k < |after| ==> after[k] in woken) &&
    (forall i :: i in woken ==> i in after) &&
    (woken == {} ==> after == before)
  }

  predicate DefsWellFormed(defs: seq<Constraint>, n: nat) {
    forall c :: 0 <= c < |defs| ==> Constraints.WellFormed(defs[c], n)
  }

  /** Constraint c is about variable v. */
  predicate Mentions(c: Constraint, v: Var) {
    v in VarsOf(c)
  }

  /**
   * Every handle in a variable's constraint set names a constraint, and every
   * constraint is registered with each variable it mentions.
   */
  ghost predicate Registered(defs: seq<Constraint>, uses: seq<set<Cid>>) {
    (forall v: Var, i: Cid :: 0 <= v < |uses| && i in uses[v] ==> i < |defs|) &&
    (forall c: Cid, v: Var {:trigger Mentions(defs[c], v)} :: 0 <= c < |defs| && Mentions(defs[c], v) ==> v < |uses| && c in uses[v])
  }

  /** Every LT, LE, REQ and EQ constraint outside the queue is satisfied. */
  predicate SettledIn(r: Rel, defs: seq<Constraint>, queue: seq<Cid>)
    requires Bounded(r) && DefsWellFormed(defs, |r.lt|)
  {
    forall c :: 0 <= c < |defs| && c !in queue && !defs[c].PHI? ==> Satisfied(r, defs[c])
  }

  /** A constraint that was not put back mentions no changed variable. */
  lemma NotWokenUntouched(defs: seq<Constraint>, uses: seq<set<Cid>>, changed: set<Var>, self: Cid, c: Cid)
    requires Registered(defs, uses) && c < |defs| && c != self && c !in Woken(uses, changed, self)
    ensures forall v :: v in VarsOf(defs[c]) ==> v !in changed
  {
    forall v | v in VarsOf(defs[c]) ensures v !in changed {
      assert Mentions(defs[c], v);
      assert v < |uses| && c in uses[v];
      assert v in changed ==> c in Woken(uses, changed, self);
    }
  }

  /**
   * One step of solve() keeps the unqueued constraints satisfied: the popped
   * constraint by its own resolve, every other one because none of its
   * variables changed (or it was put back).
   */
  lemma StepSettles(r: Rel, r': Rel, defs: seq<Constraint>, uses: seq<set<Cid>>, q: seq<Cid>, w: seq<Cid>)
    requires Consistent(r) && DefsWellFormed(defs, |r.lt|) && Registered(defs, uses)
    requires q != [] && q[0] < |defs| && SettledIn(r, defs, q)
    requires r' == Order.Resolve(r, defs[q[0]])
    requires Requeued(q[1..], w, Woken(uses, Diff(r, r'), q[0]))
    ensures SettledIn(r', defs, w)
  {
    var c := q[0];
    forall c' | 0 <= c' < |defs| && c' !in w && !defs[c'].PHI?
      ensures Satisfied(r', defs[c'])
    {
      if c' == c {
        ResolveSatisfies(r, defs[c]);
      } else {
        assert c' !in q[1..];
        assert c' !in q by {
          assert forall k :: 0 < k < |q| ==> q[k] == q[1..][k - 1];
        }
        NotWokenUntouched(defs, uses, Diff(r, r'), c, c');
        WellFormedVars(defs[c'], |r.lt|);
        forall v | v in VarsOf(defs[c']) ensures r.lt[v] == r'.lt[v] && r.gt[v] == r'.gt[v] {
          assert v !in Diff(r, r');
        }
        SatisfiedLocal(r, r', defs[c']);
      }
    }
  }

  /** Inserting handle c into the constraint set of each variable in vs. */
  method RegisterWith(vars: Variables, vs: set<Var>, c: Cid)
    requires forall v :: v in vs ==> v < |vars.uses|
    modifies vars`uses
    ensures |vars.uses| == old(|vars.uses|)
    ensures forall v :: 0 <= v < |vars.uses| ==>
              vars.uses[v] == if v in vs then old(vars.uses[v]) + {c} else old(vars.uses[v])
  {
    var todo := vs;
    while todo != {}
      invariant todo <= vs && |vars.uses| == old(|vars.uses|)
      invariant forall v :: 0 <= v < |vars.uses| ==>
                  vars.uses[v] == if v in vs - todo then old(vars.uses[v]) + {c} else old(vars.uses[v])
      decreases todo
    {
      var v :| v in todo;
      vars.uses := vars.uses[v := vars.uses[v] + {c}];
      todo := todo - {v};
    }
  }

  /** Registering a new last constraint with exactly its variables keeps every registration exact. */
  lemma RegisteredSnoc(defs: seq<Constraint>, uses: seq<set<Cid>>, uses': seq<set<Cid>>, con: Constraint)
    requires Registered(defs, uses) && |uses'| == |uses|
    requires forall v :: v in VarsOf(con) ==> v < |uses|
    requires forall v :: 0 <= v < |uses'| ==>
               uses'[v] == if v in VarsOf(con) then uses[v] + {|defs|} else uses[v]
    ensures Registered(defs + [con], uses')
  {
    var defs' := defs + [con];
    forall c: Cid, v: Var | 0 <= c < |defs'| && Mentions(defs'[c], v) ensures v < |uses'| && c in uses'[v] {
      if c < |defs| {
        assert defs'[c] == defs[c] && Mentions(defs[c], v);
      }
    }
  }

  /** A new constraint that is queued leaves every other constraint's settledness as it was. */
  lemma SettledSnoc(r: Rel, defs: seq<Constraint>, q: seq<Cid>, con: Constraint)
    requires Bounded(r) && DefsWellFormed(defs, |r.lt|) && Constraints.WellFormed(con, |r.lt|)
    requires SettledIn(r, defs, q)
    ensures DefsWellFormed(defs + [con], |r.lt|) && SettledIn(r, defs + [con], q + [|defs|])
  {
    var defs' := defs + [con];
    forall c | 0 <= c < |defs'| ensures Constraints.WellFormed(defs'[c], |r.lt|) {
      if c < |defs| {
        assert defs'[c] == defs[c];
      }
    }
    forall c | 0 <= c < |defs'| && c !in q + [|defs|] && !defs'[c].PHI? ensures Satisfied(r, defs'[c]) {
      assert c < |defs| && c !in q && defs'[c] == defs[c];
    }
  }

  class WorkListEngine {
    var worklist: seq<Cid>
    /** The "in queue" flag of every registered constraint. */
    var constraints: map<Cid, bool>
    /** The constraint objects the engine owns, indexed by handle. */
    var defs: seq<Constraint>
    const vars: Variables

    /** No constraint is queued twice, and the flag says exactly which are queued. */
    ghost predicate QueueValid()
      reads this
    {
      (forall i, j :: 0 <= i < j < |worklist| ==> worklist[i] != worklist[j]) &&
      (forall c :: c in worklist <==> c in constraints && constraints[c])
    }

    ghost predicate Valid()
      reads this, vars
    {
      vars.Valid() && QueueValid() &&
      (forall c: Cid :: c in constraints <==> c < |defs|) &&
      DefsWellFormed(defs, |vars.lt|) && Registered(defs, vars.uses)
    }

    /** Every LT, LE, REQ and EQ constraint that is not queued is satisfied by the arena. */
    ghost predicate Settled()
      requires Valid()
      reads this, vars
    {
      SettledIn(vars.Rel(), defs, worklist)
    }

    constructor(vs: Variables)
      requires vs.Valid() && forall v :: 0 <= v < |vs.uses| ==> vs.uses[v] == {}
      ensures vars == vs && worklist == [] && constraints == map[] && defs == []
      ensures Valid()
    {
      vars := vs;
      worklist, constraints, defs := [], map[], [];
    }

    /**
     * add(C, isnew): a new constraint is registered unqueued; then C is pushed
     * unless its flag says it is already queued.
     */
    method Add(c: Cid, isnew: bool)
      requires QueueValid()
      requires isnew || c in constraints
      requires isnew ==> c !in worklist
      modifies this`worklist, this`constraints
      ensures QueueValid()
      ensures constraints == old(constraints)[c := true]
      ensures worklist == if c in old(worklist) then old(worklist) else old(worklist) + [c]
    {
      if isnew {
        constraints := constraints[c := false];
      }
      if !constraints[c] {
        worklist := worklist + [c];
        constraints := constraints[c := true];
      }
    }

    /** "for (c : changed) for (i : c->constraints) if (i != this) add(i, false)". */
    method Requeue(changed: set<Var>, self: Cid)
      requires Valid() && forall v :: v in changed ==> v < |vars.uses|
      modifies this`worklist, this`constraints
      ensures Valid()
      ensures Requeued(old(worklist), worklist, Woken(vars.uses, changed, self))
    {
      var todo := changed;
      while todo != {}
        invariant todo <= changed && Valid()
        invariant Requeued(old(worklist), worklist, Woken(vars.uses, changed - todo, self))
        decreases todo
      {
        var v :| v in todo;
        var cs := vars.uses[v];
        ghost var w0 := Woken(vars.uses, changed - todo, self);
        while cs != {}
          invariant cs <= vars.uses[v] && Valid()
          invariant Requeued(old(worklist), worklist, w0 + set i | i in vars.uses[v] - cs && i != self)
          decreases cs
        {
          var i :| i in cs;
          if i != self {
            Add(i, false);
          }
          cs := cs - {i};
        }
        assert Woken(vars.uses, changed - (todo - {v}), self) ==
               w0 + set i | i in vars.uses[v] - cs && i != self;
        todo := todo - {v};
      }
    }

    /**
     * c->resolve(): apply constraint c's insertions to the arena, then put back
     * the constraints of every variable whose LT or GT set changed.
     */
    method Resolve(c: Cid)
      requires Valid() && c < |defs|
      modifies this`worklist, this`constraints, vars`lt, vars`gt
      ensures Valid()
      ensures vars.Rel() == Order.Resolve(old(vars.Rel()), defs[c])
      ensures Requeued(old(worklist), worklist, Woken(vars.uses, Diff(old(vars.Rel()), vars.Rel()), c))
    {
      ghost var r0 := vars.Rel();
      var changed := vars.Apply(defs[c]);
      ResolveConsistent(r0, defs[c]);
      Requeue(changed, c);
    }

    /**
     * solve(): pop the front constraint, clear its flag, resolve it; until the
     * queue is empty.  Every resolve either adds a fact to the arena or
     * queues nothing, so the loop ends.
     */
    method Solve()
      requires Valid() && Settled()
      modifies this`worklist, this`constraints, vars`lt, vars`gt
      ensures Valid() && Settled() && worklist == []
      ensures Grows(old(vars.Rel()), vars.Rel())
      ensures forall c :: 0 <= c < |defs| && !defs[c].PHI? ==> Order.Resolve(vars.Rel(), defs[c]) == vars.Rel()
    {
      while worklist != []
        invariant Valid() && Settled() && Grows(old(vars.Rel()), vars.Rel())
        decreases Missing(vars.Rel()), |worklist|
      {
        var c := worklist[0];
        ghost var q := worklist;
        assert c in constraints;
        worklist := worklist[1..];
        constraints := constraints[c := false];
        assert QueueValid() by {
          forall x ensures x in worklist <==> x in constraints && constraints[x] {
            if x == c {
              assert forall j :: 0 < j < |q| ==> q[j] != q[0];
            }
          }
        }
        ghost var r := vars.Rel();
        Resolve(c);
        MissingShrinks(r, vars.Rel());
        GrowsTrans(old(vars.Rel()), r, vars.Rel());
        if Diff(r, vars.Rel()) == {} {
          assert Woken(vars.uses, {}, c) == {};
        }
        StepSettles(r, vars.Rel(), defs, vars.uses, q, worklist);
      }
      forall c | 0 <= c < |defs| && !defs[c].PHI? ensures Order.Resolve(vars.Rel(), defs[c]) == vars.Rel() {
        SatisfiedStable(vars.Rel(), defs[c]);
      }
    }

    /**
     * Registering a new constraint: it gets the next handle, is inserted into
     * the constraint set of every variable it mentions, and is added as new.
     */
    method NewConstraint(con: Constraint) returns (c: Cid)
      requires Valid() && Settled() && Constraints.WellFormed(con, |vars.lt|)
      modifies this`worklist, this`constraints, this`defs, vars`uses
      ensures Valid() && Settled()
      ensures c == old(|defs|) && defs == old(defs) + [con]
      ensures worklist == old(worklist) + [c]
      ensures |vars.uses| == old(|vars.uses|)
      ensures forall v :: 0 <= v < |vars.uses| ==>
                vars.uses[v] == if v in VarsOf(con) then old(vars.uses[v]) + {c} else old(vars.uses[v])
    {
      c := |defs|;
      WellFormedVars(con, |vars.lt|);
      RegisterWith(vars, VarsOf(con), c);
      RegisteredSnoc(defs, old(vars.uses), vars.uses, con);
      SettledSnoc(vars.Rel(), defs, worklist, con);
      defs := defs + [con];
      assert c !in worklist;
      Add(c, true);
    }
  }
}
