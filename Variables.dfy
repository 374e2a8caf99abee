/**
 * The Variable arena of the strict-relations analysis.  A Variable is a
 * handle; its LT set, GT set, the constraints that mention it and its
 * must-alias set are the handle's entries in the arena's parallel sequences.
 * The insertion routines and the set helpers of the resolve routines live
 * here, each proved against the closed forms of module Order.
 */
module VariableArena {
  import opened Constraints
  import opened Order

  class Variables {
    var lt: seq<set<Var>>
    var gt: seq<set<Var>>
    /** Variable::constraints: the constraints registered with each variable. */
    var uses: seq<set<Cid>>
    var mustalias: seq<set<Var>>

    function Rel(): Order.Rel
      reads this
    {
      Order.Rel(lt, gt)
    }

    ghost predicate Valid()
      reads this
    {
      |lt| == |gt| == |uses| == |mustalias| && Consistent(Rel())
    }

    constructor()
      ensures lt == [] && gt == [] && uses == [] && mustalias == []
      ensures Valid()
    {
      lt, gt, uses, mustalias := [], [], [], [];
    }

    /** new Variable(V): empty LT and GT, no constraints, and it must-aliases itself. */
    method NewVariable() returns (v: Var)
      requires Valid()
      modifies this
      ensures Valid()
      ensures v == old(|lt|)
      ensures lt == old(lt) + [{}] && gt == old(gt) + [{}]
      ensures uses == old(uses) + [{}] && mustalias == old(mustalias) + [{v}]
    {
      v := |lt|;
      lt, gt := lt + [{}], gt + [{}];
      uses, mustalias := uses + [{}], mustalias + [{v}];
    }

    /** insertLT(x, y, changed): LT(x) gains y (unless x == y) and GT(y) gains x. */
    method InsertLT(x: Var, y: Var, changed: set<Var>) returns (changed': set<Var>)
      requires Bounded(Rel()) && x < |lt| && y < |lt|
      modifies this`lt, this`gt
      ensures Rel() == AddLTs(old(Rel()), x, {y})
      ensures changed' == changed + Diff(old(Rel()), Rel())
    {
      ghost var r := Rel();
      ghost var d: set<Var> := {};
      changed' := changed;
      if y !in lt[x] && x != y {
        lt := lt[x := lt[x] + {y}];
        changed', d := changed' + {x}, {x};
        if x !in gt[y] {
          gt := gt[y := gt[y] + {x}];
          changed', d := changed' + {y}, d + {y};
        }
      }
      ghost var r' := AddLTs(r, x, {y});
      forall v | 0 <= v < |lt| ensures lt[v] == r'.lt[v] && gt[v] == r'.gt[v] {
      }
      assert lt == r'.lt && gt == r'.gt;
      forall v | 0 <= v < |lt| ensures v in d <==> (r.lt[v] != lt[v] || r.gt[v] != gt[v]) {
        if v == x && v in d {
          assert y in lt[x] && y !in r.lt[x];
        }
        if v == y && v in d && v != x {
          assert x in gt[y] && x !in r.gt[y];
        }
      }
      assert Diff(r, Rel()) == d;
    }

    /** insertGT(x, y, changed): GT(x) gains y (unless x == y) and LT(y) gains x. */
    method InsertGT(x: Var, y: Var, changed: set<Var>) returns (changed': set<Var>)
      requires Bounded(Rel()) && x < |lt| && y < |lt|
      modifies this`lt, this`gt
      ensures Rel() == AddGTs(old(Rel()), x, {y})
      ensures changed' == changed + Diff(old(Rel()), Rel())
    {
      ghost var r := Rel();
      ghost var d: set<Var> := {};
      changed' := changed;
      if y !in gt[x] && x != y {
        gt := gt[x := gt[x] + {y}];
        changed', d := changed' + {x}, {x};
        if x !in lt[y] {
          lt := lt[y := lt[y] + {x}];
          changed', d := changed' + {y}, d + {y};
        }
      }
      ghost var r' := AddGTs(r, x, {y});
      forall v | 0 <= v < |lt| ensures lt[v] == r'.lt[v] && gt[v] == r'.gt[v] {
      }
      assert lt == r'.lt && gt == r'.gt;
      forall v | 0 <= v < |lt| ensures v in d <==> (r.lt[v] != lt[v] || r.gt[v] != gt[v]) {
        if v == x && v in d {
          assert y in gt[x] && y !in r.gt[x];
        }
        if v == y && v in d && v != x {
          assert x in lt[y] && x !in r.lt[y];
        }
      }
      assert Diff(r, Rel()) == d;
    }

    /** The loop "for (i : ys) insertLT(x, i, changed)". */
    method InsertAllLT(x: Var, ys: set<Var>, changed: set<Var>) returns (changed': set<Var>)
      requires Bounded(Rel()) && x < |lt| && Within(ys, |lt|)
      modifies this`lt, this`gt
      ensures Rel() == AddLTs(old(Rel()), x, ys)
      ensures changed' == changed + Diff(old(Rel()), Rel())
    {
      ghost var r0 := Rel();
      changed' := changed;
      var todo := ys;
      ghost var done: set<Var> := {};
      AddLTsNone(r0, x);
      DiffSelf(r0);
      while todo != {}
        invariant todo + done == ys && todo !! done
        invariant Rel() == AddLTs(r0, x, done)
        invariant changed' == changed + Diff(r0, Rel())
        decreases todo
      {
        var i :| i in todo;
        ghost var before := Rel();
        changed' := InsertLT(x, i, changed');
        AddLTsStep(r0, x, done, i);
        DiffCompose(r0, before, Rel());
        todo, done := todo - {i}, done + {i};
      }
    }

    /** The loop "for (i : ys) insertGT(x, i, changed)". */
    method InsertAllGT(x: Var, ys: set<Var>, changed: set<Var>) returns (changed': set<Var>)
      requires Bounded(Rel()) && x < |lt| && Within(ys, |lt|)
      modifies this`lt, this`gt
      ensures Rel() == AddGTs(old(Rel()), x, ys)
      ensures changed' == changed + Diff(old(Rel()), Rel())
    {
      ghost var r0 := Rel();
      changed' := changed;
      var todo := ys;
      ghost var done: set<Var> := {};
      AddGTsNone(r0, x);
      DiffSelf(r0);
      while todo != {}
        invariant todo + done == ys && todo !! done
        invariant Rel() == AddGTs(r0, x, done)
        invariant changed' == changed + Diff(r0, Rel())
        decreases todo
      {
        var i :| i in todo;
        ghost var before := Rel();
        changed' := InsertGT(x, i, changed');
        AddGTsStep(r0, x, done, i);
        DiffCompose(r0, before, Rel());
        todo, done := todo - {i}, done + {i};
      }
    }

    /** LT::resolve: LT(y) gains x and LT(x), then GT(x) gains y and GT(y). */
    method ApplyLT(l: Var, rr: Var) returns (changed: set<Var>)
      requires Bounded(Rel()) && l < |lt| && rr < |lt|
      modifies this`lt, this`gt
      ensures Rel() == Order.Resolve(old(Rel()), LT(l, rr))
      ensures changed == Diff(old(Rel()), Rel())
    {
      ghost var r0 := Rel();
      DiffSelf(r0);
      changed := InsertLT(rr, l, {});
      ghost var r1 := Rel();
      changed := InsertAllLT(rr, lt[l], changed);
      ghost var r2 := Rel();
      DiffCompose(r0, r1, r2);
      changed := InsertGT(l, rr, changed);
      ghost var r3 := Rel();
      DiffCompose(r0, r2, r3);
      changed := InsertAllGT(l, gt[rr], changed);
      DiffCompose(r0, r3, Rel());
    }

    /** LE::resolve: LT(y) gains LT(x), then GT(x) gains GT(y). */
    method ApplyLE(l: Var, rr: Var) returns (changed: set<Var>)
      requires Bounded(Rel()) && l < |lt| && rr < |lt|
      modifies this`lt, this`gt
      ensures Rel() == Order.Resolve(old(Rel()), LE(l, rr))
      ensures changed == Diff(old(Rel()), Rel())
    {
      ghost var r0 := Rel();
      DiffSelf(r0);
      changed := InsertAllLT(rr, lt[l], {});
      ghost var r1 := Rel();
      changed := InsertAllGT(l, gt[rr], changed);
      DiffCompose(r0, r1, Rel());
    }

    /** REQ::resolve: LT and GT flow from y to x and from x to y. */
    method ApplyREQ(l: Var, rr: Var) returns (changed: set<Var>)
      requires Bounded(Rel()) && l < |lt| && rr < |lt|
      modifies this`lt, this`gt
      ensures Rel() == Order.Resolve(old(Rel()), REQ(l, rr))
      ensures changed == Diff(old(Rel()), Rel())
    {
      ghost var r0 := Rel();
      DiffSelf(r0);
      changed := InsertAllLT(l, lt[rr], {});
      ghost var r1 := Rel();
      changed := InsertAllLT(rr, lt[l], changed);
      ghost var r2 := Rel();
      DiffCompose(r0, r1, r2);
      changed := InsertAllGT(l, gt[rr], changed);
      ghost var r3 := Rel();
      DiffCompose(r0, r2, r3);
      changed := InsertAllGT(rr, gt[l], changed);
      DiffCompose(r0, r3, Rel());
    }

    /** EQ::resolve: LT and GT flow from y to x only. */
    method ApplyEQ(l: Var, rr: Var) returns (changed: set<Var>)
      requires Bounded(Rel()) && l < |lt| && rr < |lt|
      modifies this`lt, this`gt
      ensures Rel() == Order.Resolve(old(Rel()), EQ(l, rr))
      ensures changed == Diff(old(Rel()), Rel())
    {
      ghost var r0 := Rel();
      DiffSelf(r0);
      changed := InsertAllLT(l, lt[rr], {});
      ghost var r1 := Rel();
      changed := InsertAllGT(l, gt[rr], changed);
      DiffCompose(r0, r1, Rel());
    }

    /**
     * PHI::resolve: the growth checks, both bounds computed from the sets as
     * they are on entry, left removed from each, then the insertions.
     */
    method ApplyPHI(l: Var, ops: seq<Var>) returns (changed: set<Var>)
      requires Bounded(Rel()) && Constraints.WellFormed(PHI(l, ops), |lt|)
      modifies this`lt, this`gt
      ensures Rel() == Order.Resolve(old(Rel()), PHI(l, ops))
      ensures changed == Diff(old(Rel()), Rel())
    {
      ghost var r0 := Rel();
      DiffSelf(r0);
      var gu := GrowsUpCheck(l, ops);
      var gd := GrowsDownCheck(l, ops);
      var ult := PhiBoundOf(LtSets(Rel(), ops), l, gu && !gd);
      var ugt := PhiBoundOf(GtSets(Rel(), ops), l, !gu && gd);
      ult := ult - {l};
      ugt := ugt - {l};
      assert ult == PhiLT(r0, l, ops) && ugt == PhiGT(r0, l, ops);
      changed := InsertAllLT(l, ult, {});
      ghost var r1 := Rel();
      changed := InsertAllGT(l, ugt, changed);
      DiffCompose(r0, r1, Rel());
    }

    /** c->resolve() on the arena: the insertions of c's kind. */
    method Apply(c: Constraint) returns (changed: set<Var>)
      requires Bounded(Rel()) && Constraints.WellFormed(c, |lt|)
      modifies this`lt, this`gt
      ensures Rel() == Order.Resolve(old(Rel()), c)
      ensures changed == Diff(old(Rel()), Rel())
    {
      match c
      case LT(l, rr) => changed := ApplyLT(l, rr);
      case LE(l, rr) => changed := ApplyLE(l, rr);
      case REQ(l, rr) => changed := ApplyREQ(l, rr);
      case EQ(l, rr) => changed := ApplyEQ(l, rr);
      case PHI(l, ops) => changed := ApplyPHI(l, ops);
    }

    /** The growth check "some operand has left in its LT set". */
    method GrowsUpCheck(left: Var, ops: seq<Var>) returns (gu: bool)
      requires forall i :: 0 <= i < |ops| ==> ops[i] < |lt|
      ensures gu == GrowsUp(Rel(), left, ops)
    {
      gu := false;
      var i := 0;
      while i < |ops|
        invariant 0 <= i <= |ops|
        invariant forall j :: 0 <= j < i ==> left !in lt[ops[j]]
      {
        if left in lt[ops[i]] {
          gu := true;
          break;
        }
        i := i + 1;
      }
    }

    /** The growth check "some operand has left in its GT set". */
    method GrowsDownCheck(left: Var, ops: seq<Var>) returns (gd: bool)
      requires |lt| == |gt| && forall i :: 0 <= i < |ops| ==> ops[i] < |gt|
      ensures gd == GrowsDown(Rel(), left, ops)
    {
      gd := false;
      var i := 0;
      while i < |ops|
        invariant 0 <= i <= |ops|
        invariant forall j :: 0 <= j < i ==> left !in gt[ops[j]]
      {
        if left in gt[ops[i]] {
          gd := true;
          break;
        }
        i := i + 1;
      }
    }
  }

  /** intersect(s1, s2): the elements of s1 that s2 also holds. */
  method Intersect(s1: set<Var>, s2: set<Var>) returns (r: set<Var>)
    ensures r == s1 * s2
  {
    r := {};
    var todo := s1;
    while todo != {}
      invariant todo <= s1
      invariant r == (s1 - todo) * s2
      decreases todo
    {
      var i :| i in todo;
      if i in s2 {
        r := r + {i};
      }
      todo := todo - {i};
    }
  }

  /** unionize(s1, s2): every element of s1, then every element of s2. */
  method Unionize(s1: set<Var>, s2: set<Var>) returns (r: set<Var>)
    ensures r == s1 + s2
  {
    r := {};
    var todo := s1;
    while todo != {}
      invariant todo <= s1 && r == s1 - todo
      decreases todo
    {
      var i :| i in todo;
      r := r + {i};
      todo := todo - {i};
    }
    todo := s2;
    while todo != {}
      invariant todo <= s2 && r == s1 + (s2 - todo)
      decreases todo
    {
      var i :| i in todo;
      r := r + {i};
      todo := todo - {i};
    }
  }

  /**
   * The bound PHI::resolve computes from the operands' sets (in operand
   * order): the do-while scan, the intersection loop and the union loop of
   * the one-directional case, or the plain intersection loop.
   */
  method PhiBoundOf(sets: seq<set<Var>>, left: Var, oneWay: bool) returns (u: set<Var>)
    requires |sets| > 0
    ensures u == PhiBound(sets, left, oneWay)
  {
    if oneWay {
      var i := 0;
      u := sets[i];
      i := i + 1;
      while left !in u && i != |sets|
        invariant 1 <= i <= |sets| && u == sets[i - 1]
        invariant FirstDom(sets, left, 0) == FirstDom(sets, left, i - 1)
      {
        u := sets[i];
        i := i + 1;
      }
      ghost var k := i - 1;
      assert k == FirstDom(sets, left, 0);
      while i != |sets|
        invariant k + 1 <= i <= |sets|
        invariant u == MeetNonDom(sets[k], sets, left, k + 1, i)
      {
        if left !in sets[i] {
          u := Intersect(u, sets[i]);
        }
        i := i + 1;
      }
      ghost var m := u;
      var j := 0;
      while j != |sets|
        invariant 0 <= j <= |sets|
        invariant u == JoinDom(m, sets, left, j)
      {
        if left in sets[j] {
          u := Unionize(u, sets[j]);
        }
        j := j + 1;
      }
    } else {
      var i := 0;
      u := sets[i];
      i := i + 1;
      while i != |sets|
        invariant 1 <= i <= |sets|
        invariant u == Meet(sets[..i])
      {
        assert sets[..i + 1][..i] == sets[..i];
        u := Intersect(u, sets[i]);
        i := i + 1;
      }
      assert sets[..|sets|] == sets;
    }
  }
}
