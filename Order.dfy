/**
 * The relation store of the strict-relations engine as a value: for every
 * variable handle v, LT(v) (the variables known to be smaller than v) and
 * GT(v) (those known to be larger).  This module gives the transfer functions
 * of the five constraint kinds in closed form, exactly as the resolve
 * routines sequence their insertions, and proves what they promise: the
 * LT/GT mirror and irreflexivity are preserved, sets only grow, and each
 * kind copies exactly the relations its rule names.
 */
module Order {
  import opened Constraints

  datatype Rel = Rel(lt: seq<set<Var>>, gt: seq<set<Var>>)

  predicate Within(s: set<Var>, n: nat) {
    forall v :: v in s ==> v < n
  }

  /** One LT and one GT set per handle, holding only handles. */
  predicate Bounded(r: Rel) {
    |r.lt| == |r.gt| &&
    forall v :: 0 <= v < |r.lt| ==> Within(r.lt[v], |r.lt|) && Within(r.gt[v], |r.lt|)
  }

  /** x in LT(y) exactly when y in GT(x). */
  predicate Mirror(r: Rel)
    requires |r.lt| == |r.gt|
  {
    forall x, y :: 0 <= x < |r.lt| && 0 <= y < |r.lt| ==> (y in r.lt[x] <==> x in r.gt[y])
  }

  /** No variable is strictly ordered against itself. */
  predicate Irreflexive(r: Rel)
    requires |r.lt| == |r.gt|
  {
    forall x :: 0 <= x < |r.lt| ==> x !in r.lt[x] && x !in r.gt[x]
  }

  predicate Consistent(r: Rel) {
    Bounded(r) && Mirror(r) && Irreflexive(r)
  }

  /** r2 holds every relation of r1 (over the same handles). */
  predicate Grows(r1: Rel, r2: Rel) {
    |r1.lt| == |r1.gt| == |r2.lt| == |r2.gt| &&
    forall v :: 0 <= v < |r1.lt| ==> r1.lt[v] <= r2.lt[v] && r1.gt[v] <= r2.gt[v]
  }

  /** The variables whose LT or GT set differs between r1 and r2. */
  function Diff(r1: Rel, r2: Rel): set<Var>
    requires |r1.lt| == |r1.gt| == |r2.lt| == |r2.gt|
  {
    set v | 0 <= v < |r1.lt| && (r1.lt[v] != r2.lt[v] || r1.gt[v] != r2.gt[v])
  }

  /**
   * The facts not yet known: (0, v, w) when w is not in LT(v), (1, v, w) when
   * w is not in GT(v).  It only shrinks as the store grows.
   */
  function Missing(r: Rel): set<(int, int, int)>
    requires |r.lt| == |r.gt|
  {
    set k, v, w | 0 <= k < 2 && 0 <= v < |r.lt| && 0 <= w < |r.lt| &&
                  w !in (if k == 0 then r.lt[v] else r.gt[v]) :: (k, v, w)
  }

  // ---------------------------------------------------------------------------
  // insertLT / insertGT, one element or a whole set

  /**
   * The store after insertLT(x, y) for every y in ys, in any order: LT(x)
   * gains ys without x, and x enters GT(y) for every y that insertLT added.
   */
  function AddLTs(r: Rel, x: Var, ys: set<Var>): (r': Rel)
    requires Bounded(r) && x < |r.lt| && Within(ys, |r.lt|)
    ensures Bounded(r') && Grows(r, r')
  {
    var n := |r.lt|;
    Rel(seq(n, v requires 0 <= v < n => if v == x then r.lt[x] + (ys - {x}) else r.lt[v]),
        seq(n, v requires 0 <= v < n =>
              if v in ys && v != x && v !in r.lt[x] then r.gt[v] + {x} else r.gt[v]))
  }

  /** The store after insertGT(x, y) for every y in ys. */
  function AddGTs(r: Rel, x: Var, ys: set<Var>): (r': Rel)
    requires Bounded(r) && x < |r.lt| && Within(ys, |r.lt|)
    ensures Bounded(r') && Grows(r, r')
  {
    var n := |r.lt|;
    Rel(seq(n, v requires 0 <= v < n =>
              if v in ys && v != x && v !in r.gt[x] then r.lt[v] + {x} else r.lt[v]),
        seq(n, v requires 0 <= v < n => if v == x then r.gt[x] + (ys - {x}) else r.gt[v]))
  }

  /** Inserting one more element extends the closed form by that element. */
  lemma AddLTsStep(r: Rel, x: Var, done: set<Var>, y: Var)
    requires Bounded(r) && x < |r.lt| && y < |r.lt| && Within(done, |r.lt|)
    ensures AddLTs(AddLTs(r, x, done), x, {y}) == AddLTs(r, x, done + {y})
  {
    var a := AddLTs(AddLTs(r, x, done), x, {y});
    var b := AddLTs(r, x, done + {y});
    assert a.lt[x] == b.lt[x];
    assert a.lt == b.lt;
    assert a.gt == b.gt;
  }

  lemma AddGTsStep(r: Rel, x: Var, done: set<Var>, y: Var)
    requires Bounded(r) && x < |r.lt| && y < |r.lt| && Within(done, |r.lt|)
    ensures AddGTs(AddGTs(r, x, done), x, {y}) == AddGTs(r, x, done + {y})
  {
    var a := AddGTs(AddGTs(r, x, done), x, {y});
    var b := AddGTs(r, x, done + {y});
    assert a.lt == b.lt;
    assert a.gt[x] == b.gt[x];
    assert a.gt == b.gt;
  }

  lemma AddLTsNone(r: Rel, x: Var)
    requires Bounded(r) && x < |r.lt|
    ensures AddLTs(r, x, {}) == r
  {
    assert AddLTs(r, x, {}).lt[x] == r.lt[x];
    assert AddLTs(r, x, {}).lt == r.lt;
    assert AddLTs(r, x, {}).gt == r.gt;
  }

  lemma AddGTsNone(r: Rel, x: Var)
    requires Bounded(r) && x < |r.lt|
    ensures AddGTs(r, x, {}) == r
  {
    assert AddGTs(r, x, {}).lt == r.lt;
    assert AddGTs(r, x, {}).gt[x] == r.gt[x];
    assert AddGTs(r, x, {}).gt == r.gt;
  }

  /**
   * insertLT(x, y): with x != y afterwards y is in LT(x) and x in GT(y); with
   * x == y nothing changes; no variable other than x and y changes.
   */
  lemma InsertLTEffect(r: Rel, x: Var, y: Var)
    requires Consistent(r) && x < |r.lt| && y < |r.lt|
    ensures var r' := AddLTs(r, x, {y});
      && (x != y ==> y in r'.lt[x] && x in r'.gt[y])
      && (x == y ==> r' == r)
      && Diff(r, r') <= {x, y}
  {
    if x == y {
      var r' := AddLTs(r, x, {y});
      assert r'.lt[x] == r.lt[x];
      assert r'.lt == r.lt;
      assert r'.gt == r.gt;
    }
  }

  lemma InsertGTEffect(r: Rel, x: Var, y: Var)
    requires Consistent(r) && x < |r.lt| && y < |r.lt|
    ensures var r' := AddGTs(r, x, {y});
      && (x != y ==> y in r'.gt[x] && x in r'.lt[y])
      && (x == y ==> r' == r)
      && Diff(r, r') <= {x, y}
  {
    if x == y {
      var r' := AddGTs(r, x, {y});
      assert r'.lt == r.lt;
      assert r'.gt[x] == r.gt[x];
      assert r'.gt == r.gt;
    }
  }

  /** Inserting through insertLT keeps the mirror and irreflexivity. */
  lemma AddLTsConsistent(r: Rel, x: Var, ys: set<Var>)
    requires Consistent(r) && x < |r.lt| && Within(ys, |r.lt|)
    ensures Consistent(AddLTs(r, x, ys))
  {
    var r' := AddLTs(r, x, ys);
    forall a, b | 0 <= a < |r.lt| && 0 <= b < |r.lt|
      ensures b in r'.lt[a] <==> a in r'.gt[b]
    {
      assert b in r.lt[a] <==> a in r.gt[b];
    }
  }

  lemma AddGTsConsistent(r: Rel, x: Var, ys: set<Var>)
    requires Consistent(r) && x < |r.lt| && Within(ys, |r.lt|)
    ensures Consistent(AddGTs(r, x, ys))
  {
    var r' := AddGTs(r, x, ys);
    forall a, b | 0 <= a < |r.lt| && 0 <= b < |r.lt|
      ensures b in r'.lt[a] <==> a in r'.gt[b]
    {
      assert b in r.lt[a] <==> a in r.gt[b];
    }
  }

  // ---------------------------------------------------------------------------
  // Growth, change sets and the termination measure

  lemma GrowsTrans(a: Rel, b: Rel, c: Rel)
    requires Grows(a, b) && Grows(b, c)
    ensures Grows(a, c)
  {
  }

  /** Along a growing chain, a variable changed overall iff it changed in some step. */
  lemma DiffCompose(a: Rel, b: Rel, c: Rel)
    requires Grows(a, b) && Grows(b, c)
    ensures Diff(a, c) == Diff(a, b) + Diff(b, c)
  {
    forall v | 0 <= v < |a.lt|
      ensures (a.lt[v] != c.lt[v] || a.gt[v] != c.gt[v]) <==>
              (a.lt[v] != b.lt[v] || a.gt[v] != b.gt[v] || b.lt[v] != c.lt[v] || b.gt[v] != c.gt[v])
    {
      if a.lt[v] == c.lt[v] {
        assert a.lt[v] <= b.lt[v] <= c.lt[v];
      }
      if a.gt[v] == c.gt[v] {
        assert a.gt[v] <= b.gt[v] <= c.gt[v];
      }
    }
  }

  lemma DiffSelf(a: Rel)
    requires |a.lt| == |a.gt|
    ensures Diff(a, a) == {}
  {
  }

  /** A store that grew without changing anything is the same store. */
  lemma NoDiffSame(a: Rel, b: Rel)
    requires Grows(a, b) && Diff(a, b) == {}
    ensures a == b
  {
    forall v | 0 <= v < |a.lt| ensures a.lt[v] == b.lt[v] && a.gt[v] == b.gt[v] {
      assert v !in Diff(a, b);
    }
    assert a.lt == b.lt;
    assert a.gt == b.gt;
  }

  /** Growth never adds a missing fact; a change removes at least one. */
  lemma MissingShrinks(a: Rel, b: Rel)
    requires Bounded(b) && Grows(a, b)
    ensures Missing(b) <= Missing(a)
    ensures Diff(a, b) != {} ==> Missing(b) < Missing(a)
  {
    if Diff(a, b) != {} {
      var v :| v in Diff(a, b);
      if a.lt[v] != b.lt[v] {
        var w :| w in b.lt[v] && w !in a.lt[v];
        assert (0, v, w) in Missing(a) - Missing(b);
      } else {
        var w :| w in b.gt[v] && w !in a.gt[v];
        assert (1, v, w) in Missing(a) - Missing(b);
      }
    }
  }

  // ---------------------------------------------------------------------------
  // PHI bounds over the operands' LT (or GT) sets

  /** Left-to-right intersection of all sets, as the loop over operands builds it. */
  function Meet(sets: seq<set<Var>>): set<Var>
    requires |sets| > 0
    decreases |sets|
  {
    if |sets| == 1 then sets[0] else Meet(sets[..|sets| - 1]) * sets[|sets| - 1]
  }

  /** Index where the do-while scan stops: the first set holding left, else the last one. */
  function FirstDom(sets: seq<set<Var>>, left: Var, i: nat): (k: nat)
    requires i < |sets|
    ensures i <= k < |sets|
    decreases |sets| - i
  {
    if left in sets[i] || i == |sets| - 1 then i else FirstDom(sets, left, i + 1)
  }

  /** acc intersected with sets[j], lo <= j < hi, for each sets[j] not holding left. */
  function MeetNonDom(acc: set<Var>, sets: seq<set<Var>>, left: Var, lo: nat, hi: nat): set<Var>
    requires lo <= hi <= |sets|
    decreases hi
  {
    if hi == lo then acc
    else
      var a := MeetNonDom(acc, sets, left, lo, hi - 1);
      if left !in sets[hi - 1] then a * sets[hi - 1] else a
  }

  /** acc united with sets[j], j < hi, for each sets[j] holding left. */
  function JoinDom(acc: set<Var>, sets: seq<set<Var>>, left: Var, hi: nat): set<Var>
    requires hi <= |sets|
  {
    if hi == 0 then acc
    else
      var a := JoinDom(acc, sets, left, hi - 1);
      if left in sets[hi - 1] then a + sets[hi - 1] else a
  }

  /**
   * The set PHI::resolve computes for one direction.  When growth is
   * one-directional it starts from the first dominating operand's set,
   * intersects the later non-dominating ones and unites all dominating ones;
   * otherwise it intersects every operand's set.
   */
  function PhiBound(sets: seq<set<Var>>, left: Var, oneWay: bool): set<Var>
    requires |sets| > 0
  {
    if oneWay then
      var k := FirstDom(sets, left, 0);
      JoinDom(MeetNonDom(sets[k], sets, left, k + 1, |sets|), sets, left, |sets|)
    else Meet(sets)
  }

  lemma {:induction false} MeetMembers(sets: seq<set<Var>>, x: Var)
    requires |sets| > 0
    ensures x in Meet(sets) <==> forall i :: 0 <= i < |sets| ==> x in sets[i]
    decreases |sets|
  {
    if |sets| > 1 {
      var init := sets[..|sets| - 1];
      MeetMembers(init, x);
      assert forall i :: 0 <= i < |sets| - 1 ==> init[i] == sets[i];
    }
  }

  lemma {:induction false} JoinDomMembers(acc: set<Var>, sets: seq<set<Var>>, left: Var, hi: nat, x: Var)
    requires hi <= |sets|
    ensures x in JoinDom(acc, sets, left, hi) <==>
            x in acc || exists j :: 0 <= j < hi && left in sets[j] && x in sets[j]
  {
    if hi > 0 {
      JoinDomMembers(acc, sets, left, hi - 1, x);
    }
  }

  lemma {:induction false} MeetNonDomWithin(acc: set<Var>, sets: seq<set<Var>>, left: Var, lo: nat, hi: nat)
    requires lo <= hi <= |sets|
    ensures MeetNonDom(acc, sets, left, lo, hi) <= acc
    decreases hi
  {
    if hi > lo {
      MeetNonDomWithin(acc, sets, left, lo, hi - 1);
    }
  }

  lemma {:induction false} FirstDomFinds(sets: seq<set<Var>>, left: Var, i: nat, j: nat)
    requires i <= j < |sets| && left in sets[j]
    ensures left in sets[FirstDom(sets, left, i)]
    decreases |sets| - i
  {
    if !(left in sets[i] || i == |sets| - 1) {
      FirstDomFinds(sets, left, i + 1, j);
    }
  }

  /**
   * The one-directional bound as written is just the union of the dominating
   * operands' sets: the intersection part is always absorbed, whatever the
   * operand order.
   */
  lemma PhiOneWayIsJoin(sets: seq<set<Var>>, left: Var)
    requires |sets| > 0 && exists j :: 0 <= j < |sets| && left in sets[j]
    ensures forall x :: x in PhiBound(sets, left, true) <==>
              exists j :: 0 <= j < |sets| && left in sets[j] && x in sets[j]
  {
    var j :| 0 <= j < |sets| && left in sets[j];
    var k := FirstDom(sets, left, 0);
    FirstDomFinds(sets, left, 0, j);
    var m := MeetNonDom(sets[k], sets, left, k + 1, |sets|);
    MeetNonDomWithin(sets[k], sets, left, k + 1, |sets|);
    forall x ensures x in PhiBound(sets, left, true) <==>
                     exists j :: 0 <= j < |sets| && left in sets[j] && x in sets[j] {
      JoinDomMembers(m, sets, left, |sets|, x);
    }
  }

  function LtSets(r: Rel, ops: seq<Var>): (s: seq<set<Var>>)
    requires forall i :: 0 <= i < |ops| ==> ops[i] < |r.lt|
    ensures |s| == |ops| && forall i :: 0 <= i < |ops| ==> s[i] == r.lt[ops[i]]
  {
    seq(|ops|, i requires 0 <= i < |ops| => r.lt[ops[i]])
  }

  function GtSets(r: Rel, ops: seq<Var>): (s: seq<set<Var>>)
    requires forall i :: 0 <= i < |ops| ==> ops[i] < |r.gt|
    ensures |s| == |ops| && forall i :: 0 <= i < |ops| ==> s[i] == r.gt[ops[i]]
  {
    seq(|ops|, i requires 0 <= i < |ops| => r.gt[ops[i]])
  }

  /** Some operand already has left in its LT set: left can only grow. */
  predicate GrowsUp(r: Rel, left: Var, ops: seq<Var>)
    requires forall i :: 0 <= i < |ops| ==> ops[i] < |r.lt|
  {
    exists i :: 0 <= i < |ops| && left in r.lt[ops[i]]
  }

  predicate GrowsDown(r: Rel, left: Var, ops: seq<Var>)
    requires |r.lt| == |r.gt| && forall i :: 0 <= i < |ops| ==> ops[i] < |r.gt|
  {
    exists i :: 0 <= i < |ops| && left in r.gt[ops[i]]
  }

  lemma MeetWithin(sets: seq<set<Var>>, n: nat)
    requires |sets| > 0 && forall i :: 0 <= i < |sets| ==> Within(sets[i], n)
    ensures Within(Meet(sets), n)
  {
    forall x | x in Meet(sets) ensures x < n {
      MeetMembers(sets, x);
      assert x in sets[0];
    }
  }

  lemma PhiBoundWithin(sets: seq<set<Var>>, left: Var, oneWay: bool, n: nat)
    requires |sets| > 0 && forall i :: 0 <= i < |sets| ==> Within(sets[i], n)
    ensures Within(PhiBound(sets, left, oneWay), n)
  {
    if oneWay {
      var k := FirstDom(sets, left, 0);
      var m := MeetNonDom(sets[k], sets, left, k + 1, |sets|);
      MeetNonDomWithin(sets[k], sets, left, k + 1, |sets|);
      forall x | x in PhiBound(sets, left, true) ensures x < n {
        JoinDomMembers(m, sets, left, |sets|, x);
      }
    } else {
      MeetWithin(sets, n);
    }
  }

  // ---------------------------------------------------------------------------
  // The transfer functions

  /** The LT bound PHI::resolve inserts into LT(left), left already removed. */
  function PhiLT(r: Rel, left: Var, ops: seq<Var>): (s: set<Var>)
    requires Bounded(r) && |ops| > 0 && forall i :: 0 <= i < |ops| ==> ops[i] < |r.lt|
    ensures Within(s, |r.lt|)
  {
    PhiBoundWithin(LtSets(r, ops), left, GrowsUp(r, left, ops) && !GrowsDown(r, left, ops), |r.lt|);
    PhiBound(LtSets(r, ops), left, GrowsUp(r, left, ops) && !GrowsDown(r, left, ops)) - {left}
  }

  function PhiGT(r: Rel, left: Var, ops: seq<Var>): (s: set<Var>)
    requires Bounded(r) && |ops| > 0 && forall i :: 0 <= i < |ops| ==> ops[i] < |r.lt|
    ensures Within(s, |r.lt|)
  {
    PhiBoundWithin(GtSets(r, ops), left, !GrowsUp(r, left, ops) && GrowsDown(r, left, ops), |r.lt|);
    PhiBound(GtSets(r, ops), left, !GrowsUp(r, left, ops) && GrowsDown(r, left, ops)) - {left}
  }

  /**
   * The store after resolving c, following each resolve's sequence of
   * insertions (each later loop reads the sets as the earlier ones left them).
   */
  function Resolve(r: Rel, c: Constraint): (r': Rel)
    requires Bounded(r) && Constraints.WellFormed(c, |r.lt|)
    ensures Bounded(r') && Grows(r, r')
  {
    match c
    case LT(l, rr) =>
      var r1 := AddLTs(r, rr, {l});
      var r2 := AddLTs(r1, rr, r1.lt[l]);
      var r3 := AddGTs(r2, l, {rr});
      AddGTs(r3, l, r3.gt[rr])
    case LE(l, rr) =>
      var r1 := AddLTs(r, rr, r.lt[l]);
      AddGTs(r1, l, r1.gt[rr])
    case REQ(l, rr) =>
      var r1 := AddLTs(r, l, r.lt[rr]);
      var r2 := AddLTs(r1, rr, r1.lt[l]);
      var r3 := AddGTs(r2, l, r2.gt[rr]);
      AddGTs(r3, rr, r3.gt[l])
    case EQ(l, rr) =>
      var r1 := AddLTs(r, l, r.lt[rr]);
      AddGTs(r1, l, r1.gt[rr])
    case PHI(l, ops) =>
      var r1 := AddLTs(r, l, PhiLT(r, l, ops));
      AddGTs(r1, l, PhiGT(r, l, ops))
  }

  // ---------------------------------------------------------------------------
  // What each transfer function promises

  /** Resolving any constraint keeps the mirror and irreflexivity. */
  lemma ResolveConsistent(r: Rel, c: Constraint)
    requires Consistent(r) && Constraints.WellFormed(c, |r.lt|)
    ensures Consistent(Resolve(r, c))
  {
    match c
    case LT(l, rr) =>
      var r1 := AddLTs(r, rr, {l});
      AddLTsConsistent(r, rr, {l});
      var r2 := AddLTs(r1, rr, r1.lt[l]);
      AddLTsConsistent(r1, rr, r1.lt[l]);
      var r3 := AddGTs(r2, l, {rr});
      AddGTsConsistent(r2, l, {rr});
      AddGTsConsistent(r3, l, r3.gt[rr]);
    case LE(l, rr) =>
      AddLTsConsistent(r, rr, r.lt[l]);
      var r1 := AddLTs(r, rr, r.lt[l]);
      AddGTsConsistent(r1, l, r1.gt[rr]);
    case REQ(l, rr) =>
      var r1 := AddLTs(r, l, r.lt[rr]);
      AddLTsConsistent(r, l, r.lt[rr]);
      var r2 := AddLTs(r1, rr, r1.lt[l]);
      AddLTsConsistent(r1, rr, r1.lt[l]);
      var r3 := AddGTs(r2, l, r2.gt[rr]);
      AddGTsConsistent(r2, l, r2.gt[rr]);
      AddGTsConsistent(r3, rr, r3.gt[l]);
    case EQ(l, rr) =>
      AddLTsConsistent(r, l, r.lt[rr]);
      var r1 := AddLTs(r, l, r.lt[rr]);
      AddGTsConsistent(r1, l, r1.gt[rr]);
    case PHI(l, ops) =>
      AddLTsConsistent(r, l, PhiLT(r, l, ops));
      var r1 := AddLTs(r, l, PhiLT(r, l, ops));
      AddGTsConsistent(r1, l, PhiGT(r, l, ops));
  }

  /** LT(x, y): LT(y) gains LT(x) and x, GT(x) gains GT(y) and y (never a variable itself). */
  lemma ResolveLTCloses(r: Rel, l: Var, rr: Var)
    requires Consistent(r) && l < |r.lt| && rr < |r.lt|
    ensures var r' := Resolve(r, LT(l, rr));
      && (r.lt[l] + {l}) - {rr} <= r'.lt[rr]
      && (r.gt[rr] + {rr}) - {l} <= r'.gt[l]
  {
    var r1 := AddLTs(r, rr, {l});
    var r2 := AddLTs(r1, rr, r1.lt[l]);
    var r3 := AddGTs(r2, l, {rr});
    var r4 := AddGTs(r3, l, r3.gt[rr]);
    assert r.lt[l] <= r1.lt[l];
    assert r.gt[rr] <= r3.gt[rr];
    GrowsTrans(r2, r3, r4);
  }

  /**
   * LE(x, y): LT(y) gains exactly LT(x) and GT(x) gains exactly GT(y); the
   * pair x, y itself is never inserted.
   */
  lemma ResolveLECopies(r: Rel, l: Var, rr: Var)
    requires Consistent(r) && l < |r.lt| && rr < |r.lt|
    ensures var r' := Resolve(r, LE(l, rr));
      && r'.lt[rr] == r.lt[rr] + (r.lt[l] - {rr})
      && r'.gt[l] == r.gt[l] + (r.gt[rr] - {l})
      && (l in r'.lt[rr] <==> l in r.lt[rr])
      && (rr in r'.gt[l] <==> rr in r.gt[l])
  {
    var r1 := AddLTs(r, rr, r.lt[l]);
    AddLTsConsistent(r, rr, r.lt[l]);
    assert r1.gt[rr] == r.gt[rr];
    assert rr !in r1.gt[rr];
  }

  /**
   * REQ(x, y): LT and GT flow both ways, so afterwards x and y have the same
   * sets apart from each other.
   */
  lemma ResolveREQEqualizes(r: Rel, l: Var, rr: Var)
    requires Consistent(r) && l < |r.lt| && rr < |r.lt|
    ensures var r' := Resolve(r, REQ(l, rr));
      && r.lt[rr] - {l} <= r'.lt[l] && r.lt[l] - {rr} <= r'.lt[rr]
      && r.gt[rr] - {l} <= r'.gt[l] && r.gt[l] - {rr} <= r'.gt[rr]
      && r'.lt[l] - {rr} == r'.lt[rr] - {l}
      && r'.gt[l] - {rr} == r'.gt[rr] - {l}
  {
    var r1 := AddLTs(r, l, r.lt[rr]);
    AddLTsConsistent(r, l, r.lt[rr]);
    var r2 := AddLTs(r1, rr, r1.lt[l]);
    AddLTsConsistent(r1, rr, r1.lt[l]);
    var r3 := AddGTs(r2, l, r2.gt[rr]);
    AddGTsConsistent(r2, l, r2.gt[rr]);
    var r4 := AddGTs(r3, rr, r3.gt[l]);
    assert r1.lt[l] == r.lt[l] + (r.lt[rr] - {l});
    assert r2.lt[l] == r1.lt[l];
    assert r2.lt[rr] == r.lt[rr] + (r1.lt[l] - {rr});
    assert r2.gt[rr] == r.gt[rr];
    assert r2.gt[l] == r.gt[l];
    assert rr !in r2.gt[rr] && l !in r3.gt[l];
    assert r3.lt[l] == r2.lt[l] && r3.lt[rr] == r2.lt[rr];
    assert r4.lt[l] == r3.lt[l];
    assert r4.lt[rr] == r3.lt[rr];
    assert r3.gt[l] == r.gt[l] + (r.gt[rr] - {l});
    assert r3.gt[rr] == r.gt[rr];
    assert r4.gt[l] == r3.gt[l];
    assert r4.gt[rr] == r.gt[rr] + (r3.gt[l] - {rr});
  }

  /** EQ(x, y): only x changes, gaining y's LT and GT sets. */
  lemma ResolveEQCopiesIntoLeft(r: Rel, l: Var, rr: Var)
    requires Consistent(r) && l < |r.lt| && rr < |r.lt|
    ensures var r' := Resolve(r, EQ(l, rr));
      && r'.lt[l] == r.lt[l] + (r.lt[rr] - {l})
      && r'.gt[l] == r.gt[l] + (r.gt[rr] - {l})
      && r'.lt[rr] == r.lt[rr] && r'.gt[rr] == r.gt[rr]
  {
    var r1 := AddLTs(r, l, r.lt[rr]);
    AddLTsConsistent(r, l, r.lt[rr]);
    assert r1.gt[rr] == r.gt[rr];
    assert rr !in r1.gt[rr] && rr !in r.lt[rr];
  }

  /**
   * PHI(x, ops), LT side: when growth is not one-directional LT(x) gains
   * exactly what every operand's LT holds; when x only grows up it gains
   * exactly the union of the LT sets of operands that already dominate x.
   * x never enters its own set.
   */
  lemma ResolvePHILT(r: Rel, l: Var, ops: seq<Var>, x: Var)
    requires Consistent(r) && Constraints.WellFormed(PHI(l, ops), |r.lt|)
    ensures var r' := Resolve(r, PHI(l, ops));
      && l !in r'.lt[l]
      && (!(GrowsUp(r, l, ops) && !GrowsDown(r, l, ops)) ==>
            (x in r'.lt[l] <==> (x in r.lt[l] || (x != l && forall i :: 0 <= i < |ops| ==> x in r.lt[ops[i]]))))
      && (GrowsUp(r, l, ops) && !GrowsDown(r, l, ops) ==>
            (x in r'.lt[l] <==>
               (x in r.lt[l] || (x != l && exists i :: 0 <= i < |ops| && l in r.lt[ops[i]] && x in r.lt[ops[i]]))))
  {
    ResolveConsistent(r, PHI(l, ops));
    var sets := LtSets(r, ops);
    var r1 := AddLTs(r, l, PhiLT(r, l, ops));
    assert r1.lt[l] == r.lt[l] + PhiLT(r, l, ops);
    assert Resolve(r, PHI(l, ops)).lt[l] == r1.lt[l];
    if GrowsUp(r, l, ops) && !GrowsDown(r, l, ops) {
      var j :| 0 <= j < |ops| && l in r.lt[ops[j]];
      assert l in sets[j];
      PhiOneWayIsJoin(sets, l);
    } else {
      MeetMembers(sets, x);
    }
  }

  /** PHI(x, ops), GT side: the mirror image of ResolvePHILT. */
  lemma ResolvePHIGT(r: Rel, l: Var, ops: seq<Var>, x: Var)
    requires Consistent(r) && Constraints.WellFormed(PHI(l, ops), |r.lt|)
    ensures var r' := Resolve(r, PHI(l, ops));
      && l !in r'.gt[l]
      && (!(!GrowsUp(r, l, ops) && GrowsDown(r, l, ops)) ==>
            (x in r'.gt[l] <==> (x in r.gt[l] || (x != l && forall i :: 0 <= i < |ops| ==> x in r.gt[ops[i]]))))
      && (!GrowsUp(r, l, ops) && GrowsDown(r, l, ops) ==>
            (x in r'.gt[l] <==>
               (x in r.gt[l] || (x != l && exists i :: 0 <= i < |ops| && l in r.gt[ops[i]] && x in r.gt[ops[i]]))))
  {
    ResolveConsistent(r, PHI(l, ops));
    var sets := GtSets(r, ops);
    var r1 := AddLTs(r, l, PhiLT(r, l, ops));
    assert r1.gt[l] == r.gt[l];
    var r2 := AddGTs(r1, l, PhiGT(r, l, ops));
    assert r2.gt[l] == r.gt[l] + PhiGT(r, l, ops);
    if !GrowsUp(r, l, ops) && GrowsDown(r, l, ops) {
      var j :| 0 <= j < |ops| && l in r.gt[ops[j]];
      assert l in sets[j];
      PhiOneWayIsJoin(sets, l);
    } else {
      MeetMembers(sets, x);
    }
  }

  // ---------------------------------------------------------------------------
  // Soundness against a valuation of the variables

  /** Every recorded relation is true of the values env gives the variables. */
  predicate Sound(r: Rel, env: Var -> int)
    requires |r.lt| == |r.gt|
  {
    (forall x, y :: 0 <= x < |r.lt| && y in r.lt[x] ==> env(y) < env(x)) &&
    (forall x, y :: 0 <= x < |r.gt| && y in r.gt[x] ==> env(x) < env(y))
  }

  lemma AddLTsSound(r: Rel, x: Var, ys: set<Var>, env: Var -> int)
    requires Bounded(r) && x < |r.lt| && Within(ys, |r.lt|) && Sound(r, env)
    requires forall y :: y in ys && y != x ==> env(y) < env(x)
    ensures Sound(AddLTs(r, x, ys), env)
  {
  }

  lemma AddGTsSound(r: Rel, x: Var, ys: set<Var>, env: Var -> int)
    requires Bounded(r) && x < |r.lt| && Within(ys, |r.lt|) && Sound(r, env)
    requires forall y :: y in ys && y != x ==> env(x) < env(y)
    ensures Sound(AddGTs(r, x, ys), env)
  {
  }

  /**
   * Resolving a constraint that holds of env keeps every recorded relation
   * true of env.  For a PHI this is shown when growth is not one-directional:
   * the one-directional rule relies on the loop the PHI closes, which a
   * single valuation does not describe.
   */
  lemma ResolveSound(r: Rel, c: Constraint, env: Var -> int)
    requires Bounded(r) && Constraints.WellFormed(c, |r.lt|) && Sound(r, env) && Holds(c, env)
    requires c.PHI? ==> GrowsUp(r, c.left, c.operands) == GrowsDown(r, c.left, c.operands)
    ensures Sound(Resolve(r, c), env)
  {
    match c
    case LT(l, rr) => LTSound(r, l, rr, env);
    case LE(l, rr) => LESound(r, l, rr, env);
    case REQ(l, rr) => REQSound(r, l, rr, env);
    case EQ(l, rr) => EQSound(r, l, rr, env);
    case PHI(l, ops) => PHISound(r, l, ops, env);
  }

  lemma LTSound(r: Rel, l: Var, rr: Var, env: Var -> int)
    requires Bounded(r) && l < |r.lt| && rr < |r.lt| && Sound(r, env) && env(l) < env(rr)
    ensures Sound(Resolve(r, LT(l, rr)), env)
  {
    AddLTsSound(r, rr, {l}, env);
    var r1 := AddLTs(r, rr, {l});
    AddLTsSound(r1, rr, r1.lt[l], env);
    var r2 := AddLTs(r1, rr, r1.lt[l]);
    AddGTsSound(r2, l, {rr}, env);
    var r3 := AddGTs(r2, l, {rr});
    AddGTsSound(r3, l, r3.gt[rr], env);
  }

  lemma LESound(r: Rel, l: Var, rr: Var, env: Var -> int)
    requires Bounded(r) && l < |r.lt| && rr < |r.lt| && Sound(r, env) && env(l) <= env(rr)
    ensures Sound(Resolve(r, LE(l, rr)), env)
  {
    AddLTsSound(r, rr, r.lt[l], env);
    var r1 := AddLTs(r, rr, r.lt[l]);
    AddGTsSound(r1, l, r1.gt[rr], env);
  }

  lemma REQSound(r: Rel, l: Var, rr: Var, env: Var -> int)
    requires Bounded(r) && l < |r.lt| && rr < |r.lt| && Sound(r, env) && env(l) == env(rr)
    ensures Sound(Resolve(r, REQ(l, rr)), env)
  {
    AddLTsSound(r, l, r.lt[rr], env);
    var r1 := AddLTs(r, l, r.lt[rr]);
    AddLTsSound(r1, rr, r1.lt[l], env);
    var r2 := AddLTs(r1, rr, r1.lt[l]);
    AddGTsSound(r2, l, r2.gt[rr], env);
    var r3 := AddGTs(r2, l, r2.gt[rr]);
    AddGTsSound(r3, rr, r3.gt[l], env);
  }

  lemma EQSound(r: Rel, l: Var, rr: Var, env: Var -> int)
    requires Bounded(r) && l < |r.lt| && rr < |r.lt| && Sound(r, env) && env(l) == env(rr)
    ensures Sound(Resolve(r, EQ(l, rr)), env)
  {
    AddLTsSound(r, l, r.lt[rr], env);
    var r1 := AddLTs(r, l, r.lt[rr]);
    AddGTsSound(r1, l, r1.gt[rr], env);
  }

  lemma PHISound(r: Rel, l: Var, ops: seq<Var>, env: Var -> int)
    requires Bounded(r) && Constraints.WellFormed(PHI(l, ops), |r.lt|) && Sound(r, env)
    requires Holds(PHI(l, ops), env)
    requires GrowsUp(r, l, ops) == GrowsDown(r, l, ops)
    ensures Sound(Resolve(r, PHI(l, ops)), env)
  {
    var i :| 0 <= i < |ops| && env(l) == env(ops[i]);
    var ult := PhiLT(r, l, ops);
    var ugt := PhiGT(r, l, ops);
    forall y | y in ult ensures env(y) < env(l) {
      MeetMembers(LtSets(r, ops), y);
    }
    forall y | y in ugt ensures env(l) < env(y) {
      MeetMembers(GtSets(r, ops), y);
    }
    AddLTsSound(r, l, ult, env);
    AddGTsSound(AddLTs(r, l, ult), l, ugt, env);
  }

  // ---------------------------------------------------------------------------
  // Satisfied constraints: the fixpoint the solver reaches

  /** What resolving c would insert is already there. */
  predicate Satisfied(r: Rel, c: Constraint)
    requires Bounded(r) && Constraints.WellFormed(c, |r.lt|)
  {
    match c
    case LT(l, rr) => (r.lt[l] + {l}) - {rr} <= r.lt[rr] && (r.gt[rr] + {rr}) - {l} <= r.gt[l]
    case LE(l, rr) => r.lt[l] - {rr} <= r.lt[rr] && r.gt[rr] - {l} <= r.gt[l]
    case REQ(l, rr) =>
      r.lt[rr] - {l} <= r.lt[l] && r.lt[l] - {rr} <= r.lt[rr] &&
      r.gt[rr] - {l} <= r.gt[l] && r.gt[l] - {rr} <= r.gt[rr]
    case EQ(l, rr) => r.lt[rr] - {l} <= r.lt[l] && r.gt[rr] - {l} <= r.gt[l]
    case PHI(l, ops) => PhiLT(r, l, ops) <= r.lt[l] && PhiGT(r, l, ops) <= r.gt[l]
  }

  lemma AddLTsNoop(r: Rel, x: Var, ys: set<Var>)
    requires Bounded(r) && x < |r.lt| && Within(ys, |r.lt|) && ys - {x} <= r.lt[x]
    ensures AddLTs(r, x, ys) == r
  {
    var r' := AddLTs(r, x, ys);
    assert r'.lt[x] == r.lt[x];
    assert r'.lt == r.lt;
    assert r'.gt == r.gt;
  }

  lemma AddGTsNoop(r: Rel, x: Var, ys: set<Var>)
    requires Bounded(r) && x < |r.lt| && Within(ys, |r.lt|) && ys - {x} <= r.gt[x]
    ensures AddGTs(r, x, ys) == r
  {
    var r' := AddGTs(r, x, ys);
    assert r'.gt[x] == r.gt[x];
    assert r'.lt == r.lt;
    assert r'.gt == r.gt;
  }

  /** Resolving a satisfied constraint changes nothing. */
  lemma SatisfiedStable(r: Rel, c: Constraint)
    requires Bounded(r) && Constraints.WellFormed(c, |r.lt|) && Satisfied(r, c)
    ensures Resolve(r, c) == r
  {
    match c
    case LT(l, rr) =>
      AddLTsNoop(r, rr, {l});
      AddLTsNoop(r, rr, r.lt[l]);
      AddGTsNoop(r, l, {rr});
      AddGTsNoop(r, l, r.gt[rr]);
    case LE(l, rr) =>
      AddLTsNoop(r, rr, r.lt[l]);
      AddGTsNoop(r, l, r.gt[rr]);
    case REQ(l, rr) =>
      AddLTsNoop(r, l, r.lt[rr]);
      AddLTsNoop(r, rr, r.lt[l]);
      AddGTsNoop(r, l, r.gt[rr]);
      AddGTsNoop(r, rr, r.gt[l]);
    case EQ(l, rr) =>
      AddLTsNoop(r, l, r.lt[rr]);
      AddGTsNoop(r, l, r.gt[rr]);
    case PHI(l, ops) =>
      AddLTsNoop(r, l, PhiLT(r, l, ops));
      AddGTsNoop(r, l, PhiGT(r, l, ops));
  }

  /** After resolving an LT, LE, REQ or EQ constraint it is satisfied. */
  lemma ResolveSatisfies(r: Rel, c: Constraint)
    requires Consistent(r) && Constraints.WellFormed(c, |r.lt|) && !c.PHI?
    ensures Satisfied(Resolve(r, c), c)
  {
    var r' := Resolve(r, c);
    match c
    case LT(l, rr) =>
      ResolveLTCloses(r, l, rr);
      if l == rr {
        AddLTsNoop(r, rr, {l});
        AddLTsNoop(r, rr, r.lt[l]);
        AddGTsNoop(r, l, {rr});
        AddGTsNoop(r, l, r.gt[rr]);
      } else {
        var r1 := AddLTs(r, rr, {l});
        var r2 := AddLTs(r1, rr, r1.lt[l]);
        var r3 := AddGTs(r2, l, {rr});
        assert r'.lt[l] == r.lt[l];
        assert r'.gt[rr] == r.gt[rr];
      }
    case LE(l, rr) =>
      ResolveLECopies(r, l, rr);
      var r1 := AddLTs(r, rr, r.lt[l]);
      assert r'.lt[l] == r.lt[l] || l == rr;
      assert r'.gt[rr] == r.gt[rr] || l == rr;
    case REQ(l, rr) =>
      ResolveREQEqualizes(r, l, rr);
    case EQ(l, rr) =>
      ResolveEQCopiesIntoLeft(r, l, rr);
  }

  /** Whether c is satisfied depends only on the sets of the variables c mentions. */
  lemma SatisfiedLocal(r: Rel, r': Rel, c: Constraint)
    requires Bounded(r) && Bounded(r') && |r.lt| == |r'.lt| && Constraints.WellFormed(c, |r.lt|)
    requires forall v :: v in VarsOf(c) ==> r.lt[v] == r'.lt[v] && r.gt[v] == r'.gt[v]
    ensures Satisfied(r, c) <==> Satisfied(r', c)
  {
    if c.PHI? {
      var ops := c.operands;
      assert forall i :: 0 <= i < |ops| ==> ops[i] in VarsOf(c);
      assert LtSets(r, ops) == LtSets(r', ops);
      assert GtSets(r, ops) == GtSets(r', ops);
      assert GrowsUp(r, c.left, ops) == GrowsUp(r', c.left, ops);
      assert GrowsDown(r, c.left, ops) == GrowsDown(r', c.left, ops);
    }
  }
}
