/**
 * collectConstraintsFromDepGraph: for every node of the dependence graph and
 * every pair of edges leaving it (two GEPs off one base), an LT constraint
 * between the GEPs when their offset ranges are disjoint or compareGEPs
 * orders their indexes; each constraint is registered with the worklist.
 */
module Collect {
  import opened Opt
  import opened Ranges
  import opened Constraints
  import opened Compare
  import opened DepGraphs
  import opened Worklist
  import Rules
  import Primitives
  import Order

  // ---------------------------------------------------------------------
  // The representative of a node: the first variable of its set

  /**
   * The least variable of a non-empty set.  The source takes the first
   * element of a std::set of Variable pointers; handles stand for the
   * pointers and their order for the pointer order.
   */
  ghost function Least(s: set<Var>): (m: Var)
    requires s != {}
    ensures m in s && forall y :: y in s ==> m <= y
    decreases s
  {
    var x :| x in s;
    if s == {x} then x
    else
      var m := Least(s - {x});
      assert forall y :: y in s ==> y == x || y in s - {x};
      if x < m then x else m
  }

  /** "*(variables.begin())": the method that finds the least variable. */
  method FirstVariable(s: set<Var>) returns (m: Var)
    requires s != {}
    ensures m == Least(s)
  {
    var todo := s;
    m :| m in todo;
    todo := todo - {m};
    while todo != {}
      invariant todo <= s && m in s && forall y :: y in s - todo ==> m <= y
      decreases todo
    {
      var y :| y in todo;
      assert s - (todo - {y}) == (s - todo) + {y};
      if y < m {
        m := y;
      }
      todo := todo - {y};
    }
    assert s - todo == s;
    assert Least(s) <= m && m <= Least(s);
  }

  // ---------------------------------------------------------------------
  // The constraint of one pair of sibling edges

  /** Edge e exists and its target is a live node holding a variable. */
  predicate EdgeUsable(g: Graph, e: EdgeId) {
    e < |g.edges| && g.edges[e].target in g.store && g.store[g.edges[e].target].variables != {}
  }

  predicate Usable(g: Graph, es: seq<EdgeId>) {
    forall t :: 0 <= t < |es| ==> EdgeUsable(g, es[t])
  }

  /** The representative variable of edge e's target. */
  ghost function TargetVar(g: Graph, e: EdgeId): Var
    requires EdgeUsable(g, e)
  {
    Least(g.store[g.edges[e].target].variables)
  }

  /**
   * What the pair test reads of a GEP instruction: the element type its base
   * pointer points to, and its index operands.
   */
  datatype Gep = Gep(pointee: Primitives.Type, indexes: seq<Val>)

  /**
   * The tests of the loop body in their order: LT(j, k) when j's range ends
   * below k's or the indexes say L; LT(k, j) when j's range starts above k's
   * or the indexes say G; nothing otherwise.
   */
  function Choose(rj: Range, rk: Range, jv: Var, kv: Var, verdict: Verdict): Option<Constraint> {
    if rj.upper < rk.lower then Some(LT(jv, kv))
    else if verdict == L then Some(LT(jv, kv))
    else if rj.lower > rk.upper then Some(LT(kv, jv))
    else if verdict == G then Some(LT(kv, jv))
    else None
  }

  /**
   * compareGEPs for two sibling GEPs, consulted only when both index the same
   * element type; indexes over different types say nothing (N).
   */
  function GepVerdict(f: Facts, gj: Gep, gk: Gep): (v: Verdict)
    requires FactsValid(f)
    ensures gj.pointee != gk.pointee ==> v == N
    ensures gj.pointee == gk.pointee ==> v == Overall(PairVerdicts(f, gj.indexes, gk.indexes))
  {
    if gj.pointee == gk.pointee then Overall(PairVerdicts(f, gj.indexes, gk.indexes)) else N
  }

  /**
   * Edges j and k as the source tests them: compareGEPs is consulted whatever
   * the element types of the two GEPs, although a cast folded into the base's
   * node lets GEPs over different types share it.
   */
  ghost function PairConstraintAsWritten(f: Facts, idx: Val -> Gep, g: Graph, j: EdgeId, k: EdgeId): Option<Constraint>
    requires FactsValid(f) && EdgeUsable(g, j) && EdgeUsable(g, k)
  {
    var ej, ek := g.edges[j], g.edges[k];
    Choose(ej.range, ek.range, TargetVar(g, j), TargetVar(g, k),
           Overall(PairVerdicts(f, idx(ej.gep).indexes, idx(ek.gep).indexes)))
  }

  /** Edges j and k with the index comparison kept to GEPs over the same element type. */
  ghost function PairConstraint(f: Facts, idx: Val -> Gep, g: Graph, j: EdgeId, k: EdgeId): Option<Constraint>
    requires FactsValid(f) && EdgeUsable(g, j) && EdgeUsable(g, k)
  {
    var ej, ek := g.edges[j], g.edges[k];
    Choose(ej.range, ek.range, TargetVar(g, j), TargetVar(g, k), GepVerdict(f, idx(ej.gep), idx(ek.gep)))
  }

  /** The constraints of edge es[a] against es[a+1 .. m-1]. */
  ghost function Row(f: Facts, idx: Val -> Gep, g: Graph, es: seq<EdgeId>, a: nat, m: nat): seq<Constraint>
    requires FactsValid(f) && Usable(g, es) && a < m <= |es|
    decreases m
  {
    if m == a + 1 then []
    else Row(f, idx, g, es, a, m - 1) + Rules.Emit(PairConstraint(f, idx, g, es[a], es[m - 1]))
  }

  /** The constraints of the pairs whose first edge is among es[..m]. */
  ghost function Rows(f: Facts, idx: Val -> Gep, g: Graph, es: seq<EdgeId>, m: nat): seq<Constraint>
    requires FactsValid(f) && Usable(g, es) && m <= |es|
  {
    if m == 0 then [] else Rows(f, idx, g, es, m - 1) + Row(f, idx, g, es, m - 1, |es|)
  }

  /** The constraints of the first m groups of sibling edges, in iteration order. */
  ghost function Collected(f: Facts, idx: Val -> Gep, g: Graph, groups: seq<seq<EdgeId>>, m: nat): seq<Constraint>
    requires FactsValid(f) && m <= |groups| && forall t :: 0 <= t < |groups| ==> Usable(g, groups[t])
  {
    if m == 0 then []
    else Collected(f, idx, g, groups, m - 1) + Rows(f, idx, g, groups[m - 1], |groups[m - 1]|)
  }

  /**
   * ns lists the nodes some variable maps to, once each, and groups[t] lists
   * the out-edges of ns[t], once each: the iteration order of the loops.
   */
  ghost predicate Enumerates(g: Graph, ns: seq<NodeId>, groups: seq<seq<EdgeId>>) {
    |ns| == |groups| &&
    (forall s, t :: 0 <= s < t < |ns| ==> ns[s] != ns[t]) &&
    (forall n :: n in g.nodes.Values <==> n in ns) &&
    (forall t :: 0 <= t < |ns| ==> ns[t] in g.store && forall e :: e in g.store[ns[t]].edges <==> e in groups[t]) &&
    (forall t, a, b :: 0 <= t < |groups| && 0 <= a < b < |groups[t]| ==> groups[t][a] != groups[t][b])
  }

  /** Each group is a list of usable out-edges of the live node listed with it. */
  predicate Siblings(g: Graph, ns: seq<NodeId>, groups: seq<seq<EdgeId>>) {
    |ns| == |groups| &&
    forall t :: 0 <= t < |groups| ==>
      ns[t] in g.store && Usable(g, groups[t]) && forall a :: 0 <= a < |groups[t]| ==> groups[t][a] in g.store[ns[t]].edges
  }

  /** In an intact graph an enumeration of the out-edges lists usable sibling edges. */
  lemma EnumeratedSiblings(g: Graph, ns: seq<NodeId>, groups: seq<seq<EdgeId>>)
    requires GraphValid(g) && Enumerates(g, ns, groups)
    ensures Siblings(g, ns, groups)
  {
    forall t | 0 <= t < |ns| ensures ns[t] in g.store {
      assert ns[t] in g.nodes.Values;
    }
    forall t, a | 0 <= t < |groups| && 0 <= a < |groups[t]| ensures EdgeUsable(g, groups[t][a]) {
      assert groups[t][a] in g.store[ns[t]].edges;
      assert OutEdgeOk(g, ns[t], groups[t][a]);
    }
  }

  // ---------------------------------------------------------------------
  // Soundness: every collected constraint holds of the run-time addresses

  /** All variables of a node have the node's address (they must-alias). */
  ghost predicate Laid(g: Graph, venv: Var -> int, addr: NodeId -> int) {
    forall n, v :: n in g.store && v in g.store[n].variables ==> venv(v) == addr(n)
  }

  /** Every edge's range holds the offset of its target from its source. */
  ghost predicate Offsets(g: Graph, addr: NodeId -> int) {
    forall n, e :: n in g.store && e in g.store[n].edges ==> OffsetHolds(g, addr, n, e)
  }

  ghost predicate OffsetHolds(g: Graph, addr: NodeId -> int, n: NodeId, e: EdgeId) {
    e < |g.edges| && Contains(g.edges[e].range, addr(g.edges[e].target) - addr(n))
  }

  /** Index lists: no index of g1 above g2's at the same position, and one below. */
  ghost predicate IndexesBelow(env: Val -> int, g1: seq<Val>, g2: seq<Val>) {
    var n := if |g1| < |g2| then |g2| else |g1|;
    (forall k :: 0 <= k < n ==> ValueOf(env, At(g1, k)) <= ValueOf(env, At(g2, k))) &&
    (exists k :: 0 <= k < n && ValueOf(env, At(g1, k)) < ValueOf(env, At(g2, k)))
  }

  /**
   * Two GEPs off one base over the same element type: when the indexes of
   * one are below those of the other, so is its address.  This is what the
   * index comparison relies on.
   */
  ghost predicate GepMonotone(g: Graph, env: Val -> int, idx: Val -> Gep, addr: NodeId -> int) {
    forall n, j, k ::
      (n in g.store && j in g.store[n].edges && k in g.store[n].edges && j < |g.edges| && k < |g.edges| &&
       idx(g.edges[j].gep).pointee == idx(g.edges[k].gep).pointee &&
       IndexesBelow(env, idx(g.edges[j].gep).indexes, idx(g.edges[k].gep).indexes)) ==>
      addr(g.edges[j].target) < addr(g.edges[k].target)
  }

  /** The constraint of two sibling edges holds of the addresses. */
  lemma PairConstraintSound(f: Facts, idx: Val -> Gep, g: Graph, env: Val -> int, venv: Var -> int,
                            addr: NodeId -> int, n: NodeId, j: EdgeId, k: EdgeId)
    requires FactsValid(f) && Models(f, env, venv)
    requires Laid(g, venv, addr) && Offsets(g, addr) && GepMonotone(g, env, idx, addr)
    requires n in g.store && j in g.store[n].edges && k in g.store[n].edges
    requires EdgeUsable(g, j) && EdgeUsable(g, k)
    ensures PairConstraint(f, idx, g, j, k).Some? ==> Holds(PairConstraint(f, idx, g, j, k).value, venv)
  {
    var ej, ek := g.edges[j], g.edges[k];
    var tj, tk := ej.target, ek.target;
    assert venv(TargetVar(g, j)) == addr(tj) && venv(TargetVar(g, k)) == addr(tk);
    assert OffsetHolds(g, addr, n, j) && OffsetHolds(g, addr, n, k);
    var g1, g2 := idx(ej.gep).indexes, idx(ek.gep).indexes;
    var verdict := GepVerdict(f, idx(ej.gep), idx(ek.gep));
    if verdict == L {
      CompareGEPsLess(f, env, venv, g1, g2);
      assert IndexesBelow(env, g1, g2);
    } else if verdict == G {
      CompareGEPsGreater(f, env, venv, g1, g2);
      assert IndexesBelow(env, g2, g1);
    }
  }

  // The dependence graph of `gep i32* p, 1` (edge 0, offset 32) and
  // `gep i8* q, 2` (edge 1, offset 16), where q is a bitcast of p folded into
  // p's node: variables 0, 1, 2 live in nodes 0, 1, 2; the GEPs are the
  // values 10 and 11, and their indexes the constants 20 (holding 1) and 21
  // (holding 2).

  function CastGraph(): Graph {
    Graph(map[0 := 0, 1 := 1, 2 := 2],
          map[0 := Node({0}, {0, 1}, {}), 1 := Node({1}, {}, {0}), 2 := Node({2}, {}, {1})],
          [Edge(1, Range(32, 32), 10), Edge(2, Range(16, 16), 11)], 3)
  }

  function CastFacts(): Facts {
    Facts(map[], Order.Rel([], []), CastRange)
  }

  function CastRange(v: Val): Range {
    if v == 20 then Range(1, 1) else if v == 21 then Range(2, 2) else Range(0, 0)
  }

  function CastGeps(v: Val): Gep {
    if v == 10 then Gep(Primitives.Scalar(32), [20]) else Gep(Primitives.Scalar(8), [21])
  }

  function CastEnv(v: Val): int {
    if v == 20 then 1 else if v == 21 then 2 else 0
  }

  /** The address of each node, and of the variable of the same number. */
  function CastAddr(n: nat): int {
    if n == 1 then 32 else if n == 2 then 16 else 0
  }

  lemma CastPremises()
    ensures GraphValid(CastGraph()) && FactsValid(CastFacts()) && Models(CastFacts(), CastEnv, CastAddr)
    ensures Laid(CastGraph(), CastAddr, CastAddr) && Offsets(CastGraph(), CastAddr)
    ensures EdgeUsable(CastGraph(), 0) && EdgeUsable(CastGraph(), 1)
  {
    CastNodes();
    CastEdges();
    CastOffsets();
  }

  lemma CastNodes()
    ensures Held(CastGraph()) && Members(CastGraph()) && Inhabited(CastGraph()) && FreshNext(CastGraph())
    ensures Laid(CastGraph(), CastAddr, CastAddr)
  {
    var g := CastGraph();
    forall v | v in g.nodes ensures g.nodes[v] == v && v in g.store && v in g.store[v].variables {
      assert v == 0 || v == 1 || v == 2;
    }
    forall n | n in g.store ensures n < 3 && g.store[n].variables == {n} {
      assert n == 0 || n == 1 || n == 2;
    }
  }

  lemma CastEdges()
    ensures OutEdgesValid(CastGraph()) && InEdgesValid(CastGraph())
    ensures EdgeUsable(CastGraph(), 0) && EdgeUsable(CastGraph(), 1)
  {
    var g := CastGraph();
    assert g.store.Keys == {0, 1, 2};
    forall n, e | n in g.store && e in g.store[n].edges ensures OutEdgeOk(g, n, e) {
      assert n == 0 && e in {0, 1};
    }
    forall n, e | n in g.store && e in g.store[n].inedges ensures InEdgeOk(g, n, e) {
      assert (n == 1 && e == 0) || (n == 2 && e == 1);
    }
  }

  lemma CastOffsets()
    ensures Offsets(CastGraph(), CastAddr)
  {
    var g := CastGraph();
    assert g.store.Keys == {0, 1, 2};
    forall n, e | n in g.store && e in g.store[n].edges ensures OffsetHolds(g, CastAddr, n, e) {
      assert n == 0 && e in {0, 1};
    }
  }

  /** The only sibling GEPs index different element types, so the premise on indexes holds vacuously. */
  lemma CastMonotone()
    ensures GepMonotone(CastGraph(), CastEnv, CastGeps, CastAddr)
  {
    var g := CastGraph();
    forall n, j, k | n in g.store && j in g.store[n].edges && k in g.store[n].edges && j < |g.edges| && k < |g.edges| &&
                     CastGeps(g.edges[j].gep).pointee == CastGeps(g.edges[k].gep).pointee
      ensures !IndexesBelow(CastEnv, CastGeps(g.edges[j].gep).indexes, CastGeps(g.edges[k].gep).indexes)
    {
      assert n == 0 && j in {0, 1} && k in {0, 1};
      assert j == k;
    }
  }

  /**
   * As written, the two sibling GEPs of CastGraph get LT(j, k): the ranges
   * do not order edge 0 below edge 1, and the indexes 1 < 2 say L, although
   * j's address is the larger.  Every premise of CollectedSound holds, and
   * the corrected test emits LT(k, j), which holds.
   */
  lemma PairConstraintAsWrittenCastMix()
    ensures GraphValid(CastGraph()) && FactsValid(CastFacts()) && Models(CastFacts(), CastEnv, CastAddr)
    ensures Laid(CastGraph(), CastAddr, CastAddr) && Offsets(CastGraph(), CastAddr)
    ensures GepMonotone(CastGraph(), CastEnv, CastGeps, CastAddr)
    ensures EdgeUsable(CastGraph(), 0) && EdgeUsable(CastGraph(), 1)
    ensures Primitives.GepOffset(Primitives.Scalar(32), [Primitives.Const(1)], 64) == Some(Range(32, 32))
    ensures Primitives.GepOffset(Primitives.Scalar(8), [Primitives.Const(2)], 64) == Some(Range(16, 16))
    ensures PairConstraintAsWritten(CastFacts(), CastGeps, CastGraph(), 0, 1) == Some(LT(1, 2))
    ensures !Holds(LT(1, 2), CastAddr)
    ensures PairConstraint(CastFacts(), CastGeps, CastGraph(), 0, 1) == Some(LT(2, 1))
    ensures Holds(LT(2, 1), CastAddr)
  {
    CastPremises();
    CastMonotone();
    CastPairs();
    CastGepOffsets();
  }

  /** The edge ranges of CastGraph are what processGEP gives the two GEPs. */
  lemma CastGepOffsets()
    ensures Primitives.GepOffset(Primitives.Scalar(32), [Primitives.Const(1)], 64) == Some(Range(32, 32))
    ensures Primitives.GepOffset(Primitives.Scalar(8), [Primitives.Const(2)], 64) == Some(Range(16, 16))
  {
    assert [Primitives.Const(1)][1..] == [] && [Primitives.Const(2)][1..] == [];
  }

  lemma CastPairs()
    requires EdgeUsable(CastGraph(), 0) && EdgeUsable(CastGraph(), 1)
    ensures PairConstraintAsWritten(CastFacts(), CastGeps, CastGraph(), 0, 1) == Some(LT(1, 2))
    ensures PairConstraint(CastFacts(), CastGeps, CastGraph(), 0, 1) == Some(LT(2, 1))
  {
    CastTargets();
    CastVerdict();
    assert CastGraph().edges[0].range == Range(32, 32) && CastGraph().edges[1].range == Range(16, 16);
    assert CastGeps(10).pointee != CastGeps(11).pointee;
  }

  lemma CastTargets()
    requires EdgeUsable(CastGraph(), 0) && EdgeUsable(CastGraph(), 1)
    ensures TargetVar(CastGraph(), 0) == 1 && TargetVar(CastGraph(), 1) == 2
  {
    assert CastGraph().store[1].variables == {1} && CastGraph().store[2].variables == {2};
  }

  lemma CastVerdict()
    ensures Overall(PairVerdicts(CastFacts(), [20], [21])) == L
  {
    assert PairVerdicts(CastFacts(), [20], [21]) == [L];
  }

  /** The constraint of every pair es[a], es[b] with a < b holds of the addresses. */
  ghost predicate PairsSound(f: Facts, idx: Val -> Gep, g: Graph, venv: Var -> int, es: seq<EdgeId>)
    requires FactsValid(f) && Usable(g, es)
  {
    forall a, b :: 0 <= a < b < |es| ==> PairHolds(f, idx, g, venv, es[a], es[b])
  }

  ghost predicate PairHolds(f: Facts, idx: Val -> Gep, g: Graph, venv: Var -> int, j: EdgeId, k: EdgeId)
    requires FactsValid(f) && EdgeUsable(g, j) && EdgeUsable(g, k)
  {
    PairConstraint(f, idx, g, j, k).Some? ==> Holds(PairConstraint(f, idx, g, j, k).value, venv)
  }

  lemma {:induction false} RowSound(f: Facts, idx: Val -> Gep, g: Graph, venv: Var -> int,
                                    es: seq<EdgeId>, a: nat, m: nat)
    requires FactsValid(f) && Usable(g, es) && a < m <= |es| && PairsSound(f, idx, g, venv, es)
    ensures forall c :: c in Row(f, idx, g, es, a, m) ==> Holds(c, venv)
    decreases m
  {
    if m > a + 1 {
      RowSound(f, idx, g, venv, es, a, m - 1);
      assert PairHolds(f, idx, g, venv, es[a], es[m - 1]);
    }
  }

  lemma RowsSound(f: Facts, idx: Val -> Gep, g: Graph, venv: Var -> int, es: seq<EdgeId>, m: nat)
    requires FactsValid(f) && Usable(g, es) && m <= |es| && PairsSound(f, idx, g, venv, es)
    ensures forall c :: c in Rows(f, idx, g, es, m) ==> Holds(c, venv)
  {
    forall a | 0 <= a < m ensures forall c :: c in Row(f, idx, g, es, a, |es|) ==> Holds(c, venv) {
      RowSound(f, idx, g, venv, es, a, |es|);
    }
    RowsHold(f, idx, g, venv, es, m);
  }

  /** The rows of the first m edges hold when each of them does. */
  lemma {:induction false} RowsHold(f: Facts, idx: Val -> Gep, g: Graph, venv: Var -> int, es: seq<EdgeId>, m: nat)
    requires FactsValid(f) && Usable(g, es) && m <= |es|
    requires forall a :: 0 <= a < m ==> forall c :: c in Row(f, idx, g, es, a, |es|) ==> Holds(c, venv)
    ensures forall c :: c in Rows(f, idx, g, es, m) ==> Holds(c, venv)
  {
    if m > 0 {
      RowsHold(f, idx, g, venv, es, m - 1);
      var xs, ys := Rows(f, idx, g, es, m - 1), Row(f, idx, g, es, m - 1, |es|);
      HoldsConcat(xs, ys, venv);
      assert Rows(f, idx, g, es, m) == xs + ys;
    }
  }

  /** Constraint lists that hold of venv concatenate to one that holds. */
  lemma HoldsConcat(xs: seq<Constraint>, ys: seq<Constraint>, venv: Var -> int)
    requires forall c :: c in xs ==> Holds(c, venv)
    requires forall c :: c in ys ==> Holds(c, venv)
    ensures forall c :: c in xs + ys ==> Holds(c, venv)
  {
  }

  /** Sibling edges of one node give constraints that hold. */
  lemma GroupSound(f: Facts, idx: Val -> Gep, g: Graph, env: Val -> int, venv: Var -> int,
                   addr: NodeId -> int, n: NodeId, es: seq<EdgeId>)
    requires FactsValid(f) && Models(f, env, venv)
    requires Laid(g, venv, addr) && Offsets(g, addr) && GepMonotone(g, env, idx, addr)
    requires n in g.store && Usable(g, es) && forall t :: 0 <= t < |es| ==> es[t] in g.store[n].edges
    ensures PairsSound(f, idx, g, venv, es)
  {
    forall a, b | 0 <= a < b < |es| ensures PairHolds(f, idx, g, venv, es[a], es[b]) {
      PairConstraintSound(f, idx, g, env, venv, addr, n, es[a], es[b]);
    }
  }

  /**
   * Every constraint collected from an intact graph holds of the addresses,
   * given that edge ranges hold the offsets, that a node's variables share
   * its address, that GEP addresses follow their indexes, and that the
   * arena and oracle facts hold.
   */
  lemma {:induction false} CollectedSound(f: Facts, idx: Val -> Gep, g: Graph, env: Val -> int, venv: Var -> int,
                                          addr: NodeId -> int, ns: seq<NodeId>, groups: seq<seq<EdgeId>>, m: nat)
    requires FactsValid(f) && Models(f, env, venv)
    requires Laid(g, venv, addr) && Offsets(g, addr) && GepMonotone(g, env, idx, addr)
    requires Siblings(g, ns, groups) && m <= |groups|
    ensures forall c :: c in Collected(f, idx, g, groups, m) ==> Holds(c, venv)
  {
    if m > 0 {
      CollectedSound(f, idx, g, env, venv, addr, ns, groups, m - 1);
      GroupSound(f, idx, g, env, venv, addr, ns[m - 1], groups[m - 1]);
      RowsSound(f, idx, g, venv, groups[m - 1], |groups[m - 1]|);
    }
  }

  // ---------------------------------------------------------------------
  // The collection loops

  /** Prefixes of the constraint list do not depend on the groups after them. */
  lemma {:induction false} CollectedPrefix(f: Facts, idx: Val -> Gep, g: Graph, groups: seq<seq<EdgeId>>,
                                           groups': seq<seq<EdgeId>>, m: nat)
    requires FactsValid(f) && groups <= groups' && m <= |groups|
    requires forall t :: 0 <= t < |groups'| ==> Usable(g, groups'[t])
    ensures Collected(f, idx, g, groups', m) == Collected(f, idx, g, groups, m)
  {
    if m > 0 {
      CollectedPrefix(f, idx, g, groups, groups', m - 1);
      assert groups'[m - 1] == groups[m - 1];
    }
  }

  /** The elements of a set, once each, in the order the iteration visits them. */
  method Enumerate<T>(s: set<T>) returns (xs: seq<T>)
    ensures forall x :: x in s <==> x in xs
    ensures forall a, b :: 0 <= a < b < |xs| ==> xs[a] != xs[b]
  {
    xs := [];
    var todo := s;
    while todo != {}
      invariant todo <= s
      invariant forall x :: x in s <==> x in xs || x in todo
      invariant forall x :: x in xs ==> x !in todo
      invariant forall a, b :: 0 <= a < b < |xs| ==> xs[a] != xs[b]
      decreases todo
    {
      var x :| x in todo;
      xs := xs + [x];
      todo := todo - {x};
    }
  }

  /** The body of the innermost loop: the constraint for edges j and k, if any. */
  method PairOf(f: Facts, idx: Val -> Gep, g: Graph, j: EdgeId, k: EdgeId) returns (o: Option<Constraint>)
    requires FactsValid(f) && EdgeUsable(g, j) && EdgeUsable(g, k)
    ensures o == PairConstraint(f, idx, g, j, k)
  {
    var ej, ek := g.edges[j], g.edges[k];
    var jv := FirstVariable(g.store[ej.target].variables);
    var kv := FirstVariable(g.store[ek.target].variables);
    if ej.range.upper < ek.range.lower {
      o := Some(LT(jv, kv));
      return;
    }
    var same := idx(ej.gep).pointee == idx(ek.gep).pointee;
    var v := N;
    if same {
      v := CompareGEPs(f, idx(ej.gep).indexes, idx(ek.gep).indexes);
    }
    if v == L {
      o := Some(LT(jv, kv));
    } else if ej.range.lower > ek.range.upper {
      o := Some(LT(kv, jv));
    } else {
      if same {
        v := CompareGEPs(f, idx(ej.gep).indexes, idx(ek.gep).indexes);
      }
      if v == G {
        o := Some(LT(kv, jv));
      } else {
        o := None;
      }
    }
  }

  /**
   * collectConstraintsFromDepGraph(): every node some variable maps to, every
   * pair of its out-edges in iteration order, and each resulting LT
   * registered with the worklist.  ns and groups report the iteration order.
   */
  method CollectConstraints(wle: WorkListEngine, f: Facts, idx: Val -> Gep, g: Graph)
      returns (ghost ns: seq<NodeId>, ghost groups: seq<seq<EdgeId>>)
    requires wle.Valid() && wle.Settled() && FactsValid(f) && GraphValid(g)
    requires forall v :: v in g.nodes ==> v < |wle.vars.lt|
    modifies wle`worklist, wle`constraints, wle`defs, wle.vars`uses
    ensures wle.Valid() && wle.Settled()
    ensures Enumerates(g, ns, groups) && Siblings(g, ns, groups)
    ensures wle.defs == old(wle.defs) + Collected(f, idx, g, groups, |groups|)
  {
    var order := Enumerate(g.nodes.Values);
    ns, groups := order, [];
    for t := 0 to |order|
      invariant |groups| == t && Listed(g, order, groups)
      invariant wle.Valid() && wle.Settled() && |wle.vars.lt| == old(|wle.vars.lt|)
      invariant wle.defs == old(wle.defs) + Collected(f, idx, g, groups, t)
    {
      assert order[t] in g.store by {
        assert order[t] in g.nodes.Values;
      }
      groups := CollectGroup(wle, f, idx, g, order, t, old(wle.defs), groups);
    }
    ListedEnumerates(g, ns, groups);
  }

  /**
   * groups[s] lists the usable out-edges of the live node order[s], once
   * each, for every group collected so far.
   */
  ghost predicate Listed(g: Graph, order: seq<NodeId>, groups: seq<seq<EdgeId>>) {
    |groups| <= |order| &&
    forall s :: 0 <= s < |groups| ==>
      order[s] in g.store && Usable(g, groups[s]) &&
      (forall e :: e in g.store[order[s]].edges <==> e in groups[s]) &&
      (forall a, b :: 0 <= a < b < |groups[s]| ==> groups[s][a] != groups[s][b])
  }

  /** Listing every node of a duplicate-free enumeration of the live nodes is the iteration order. */
  lemma ListedEnumerates(g: Graph, order: seq<NodeId>, groups: seq<seq<EdgeId>>)
    requires GraphValid(g) && Listed(g, order, groups) && |groups| == |order|
    requires forall n :: n in g.nodes.Values <==> n in order
    requires forall a, b :: 0 <= a < b < |order| ==> order[a] != order[b]
    ensures Enumerates(g, order, groups) && Siblings(g, order, groups)
  {
    EnumeratedSiblings(g, order, groups);
  }

  /**
   * The body of the outer loop for node order[t]: enumerate its
   * out-edges and collect the constraints of their pairs.
   */
  method CollectGroup(wle: WorkListEngine, f: Facts, idx: Val -> Gep, g: Graph, order: seq<NodeId>, t: nat,
                      ghost pre: seq<Constraint>, ghost groups: seq<seq<EdgeId>>)
      returns (ghost groups': seq<seq<EdgeId>>)
    requires wle.Valid() && wle.Settled() && FactsValid(f) && GraphValid(g)
    requires forall v :: v in g.nodes ==> v < |wle.vars.lt|
    requires Listed(g, order, groups) && t == |groups| < |order| && order[t] in g.store
    requires wle.defs == pre + Collected(f, idx, g, groups, |groups|)
    modifies wle`worklist, wle`constraints, wle`defs, wle.vars`uses
    ensures wle.Valid() && wle.Settled() && |wle.vars.lt| == old(|wle.vars.lt|)
    ensures |groups'| == |groups| + 1 && Listed(g, order, groups')
    ensures wle.defs == pre + Collected(f, idx, g, groups', |groups'|)
  {
    var n := order[t];
    var es := Enumerate(g.store[n].edges);
    OutEdgesReady(g, n, es, |wle.vars.lt|);
    CollectNode(wle, f, idx, g, es);
    groups' := groups + [es];
    GroupAppended(f, idx, g, order, groups, es, pre);
  }

  /** Appending the out-edges of the next node to the groups extends the listing and the constraint list. */
  lemma GroupAppended(f: Facts, idx: Val -> Gep, g: Graph, order: seq<NodeId>, groups: seq<seq<EdgeId>>,
                      es: seq<EdgeId>, pre: seq<Constraint>)
    requires FactsValid(f) && Listed(g, order, groups) && |groups| < |order|
    requires order[|groups|] in g.store && Usable(g, es)
    requires forall e :: e in g.store[order[|groups|]].edges <==> e in es
    requires forall a, b :: 0 <= a < b < |es| ==> es[a] != es[b]
    ensures Listed(g, order, groups + [es])
    ensures (pre + Collected(f, idx, g, groups, |groups|)) + Rows(f, idx, g, es, |es|) ==
            pre + Collected(f, idx, g, groups + [es], |groups| + 1)
  {
    ListedSnoc(g, order, groups, es);
    CollectedSnoc(f, idx, g, groups, es);
    Assoc(pre, Collected(f, idx, g, groups, |groups|), Rows(f, idx, g, es, |es|));
  }

  lemma ListedSnoc(g: Graph, order: seq<NodeId>, groups: seq<seq<EdgeId>>, es: seq<EdgeId>)
    requires Listed(g, order, groups) && |groups| < |order|
    requires order[|groups|] in g.store && Usable(g, es)
    requires forall e :: e in g.store[order[|groups|]].edges <==> e in es
    requires forall a, b :: 0 <= a < b < |es| ==> es[a] != es[b]
    ensures Listed(g, order, groups + [es])
  {
    var groups' := groups + [es];
    forall s | 0 <= s < |groups'|
      ensures order[s] in g.store && Usable(g, groups'[s]) &&
              (forall e :: e in g.store[order[s]].edges <==> e in groups'[s]) &&
              (forall a, b :: 0 <= a < b < |groups'[s]| ==> groups'[s][a] != groups'[s][b])
    {
      if s < |groups| {
        assert groups'[s] == groups[s];
      }
    }
  }

  lemma CollectedSnoc(f: Facts, idx: Val -> Gep, g: Graph, groups: seq<seq<EdgeId>>, es: seq<EdgeId>)
    requires FactsValid(f) && Usable(g, es) && forall t :: 0 <= t < |groups| ==> Usable(g, groups[t])
    ensures forall t :: 0 <= t < |groups + [es]| ==> Usable(g, (groups + [es])[t])
    ensures Collected(f, idx, g, groups + [es], |groups| + 1) ==
            Collected(f, idx, g, groups, |groups|) + Rows(f, idx, g, es, |es|)
  {
    var groups' := groups + [es];
    assert forall t :: 0 <= t < |groups| ==> groups'[t] == groups[t];
    CollectedPrefix(f, idx, g, groups, groups', |groups|);
  }

  /** The representatives of the targets of es are arena handles. */
  ghost predicate TargetsBelow(g: Graph, es: seq<EdgeId>, n: nat)
    requires Usable(g, es)
  {
    forall t :: 0 <= t < |es| ==> TargetVar(g, es[t]) < n
  }

  /** The middle loop over the out-edges es of one node: the first edge of each pair. */
  method CollectNode(wle: WorkListEngine, f: Facts, idx: Val -> Gep, g: Graph, es: seq<EdgeId>)
    requires wle.Valid() && wle.Settled() && FactsValid(f) && Usable(g, es) && TargetsBelow(g, es, |wle.vars.lt|)
    modifies wle`worklist, wle`constraints, wle`defs, wle.vars`uses
    ensures wle.Valid() && wle.Settled() && |wle.vars.lt| == old(|wle.vars.lt|)
    ensures wle.defs == old(wle.defs) + Rows(f, idx, g, es, |es|)
  {
    for a := 0 to |es|
      invariant wle.Valid() && wle.Settled() && |wle.vars.lt| == old(|wle.vars.lt|)
      invariant wle.defs == old(wle.defs) + Rows(f, idx, g, es, a)
    {
      CollectRow(wle, f, idx, g, es, a);
      Assoc(old(wle.defs), Rows(f, idx, g, es, a), Row(f, idx, g, es, a, |es|));
    }
  }

  /** The out-edges of a live node are usable and their targets are arena handles. */
  lemma OutEdgesReady(g: Graph, n: NodeId, es: seq<EdgeId>, bound: nat)
    requires GraphValid(g) && n in g.store && forall e :: e in g.store[n].edges <==> e in es
    requires forall v :: v in g.nodes ==> v < bound
    ensures Usable(g, es) && TargetsBelow(g, es, bound)
  {
    UsableOut(g, n, es);
    forall s | 0 <= s < |es| ensures TargetVar(g, es[s]) < bound {
      TargetVarBelow(g, es[s], bound);
    }
  }

  /** The innermost loop: edge es[a] against every later edge of the node. */
  method CollectRow(wle: WorkListEngine, f: Facts, idx: Val -> Gep, g: Graph, es: seq<EdgeId>, a: nat)
    requires wle.Valid() && wle.Settled() && FactsValid(f) && Usable(g, es) && TargetsBelow(g, es, |wle.vars.lt|)
    requires a < |es|
    modifies wle`worklist, wle`constraints, wle`defs, wle.vars`uses
    ensures wle.Valid() && wle.Settled() && |wle.vars.lt| == old(|wle.vars.lt|)
    ensures wle.defs == old(wle.defs) + Row(f, idx, g, es, a, |es|)
  {
    ghost var pre := wle.defs;
    assert Row(f, idx, g, es, a, a + 1) == [];
    for b := a + 1 to |es|
      invariant wle.Valid() && wle.Settled() && |wle.vars.lt| == old(|wle.vars.lt|)
      invariant wle.defs == pre + Row(f, idx, g, es, a, b)
    {
      CollectRowStep(wle, f, idx, g, es, a, b, pre);
    }
  }

  /** One iteration of the innermost loop: the row so far grows by the pair es[a], es[b]. */
  method CollectRowStep(wle: WorkListEngine, f: Facts, idx: Val -> Gep, g: Graph, es: seq<EdgeId>, a: nat, b: nat,
                        ghost pre: seq<Constraint>)
    requires wle.Valid() && wle.Settled() && FactsValid(f) && Usable(g, es) && TargetsBelow(g, es, |wle.vars.lt|)
    requires a < b < |es| && wle.defs == pre + Row(f, idx, g, es, a, b)
    modifies wle`worklist, wle`constraints, wle`defs, wle.vars`uses
    ensures wle.Valid() && wle.Settled() && |wle.vars.lt| == old(|wle.vars.lt|)
    ensures wle.defs == pre + Row(f, idx, g, es, a, b + 1)
  {
    CollectPair(wle, f, idx, g, es[a], es[b]);
    Assoc(pre, Row(f, idx, g, es, a, b), Rules.Emit(PairConstraint(f, idx, g, es[a], es[b])));
  }

  /** The loop body: the constraint of edges j and k, if any, registered with the worklist. */
  method CollectPair(wle: WorkListEngine, f: Facts, idx: Val -> Gep, g: Graph, j: EdgeId, k: EdgeId)
    requires wle.Valid() && wle.Settled() && FactsValid(f) && EdgeUsable(g, j) && EdgeUsable(g, k)
    requires TargetVar(g, j) < |wle.vars.lt| && TargetVar(g, k) < |wle.vars.lt|
    modifies wle`worklist, wle`constraints, wle`defs, wle.vars`uses
    ensures wle.Valid() && wle.Settled() && |wle.vars.lt| == old(|wle.vars.lt|)
    ensures wle.defs == old(wle.defs) + Rules.Emit(PairConstraint(f, idx, g, j, k))
  {
    var o := PairOf(f, idx, g, j, k);
    if o.Some? {
      var _ := wle.NewConstraint(o.value);
    }
  }

  lemma Assoc<T>(x: seq<T>, y: seq<T>, z: seq<T>)
    ensures (x + y) + z == x + (y + z)
  {
  }

  /** The out-edges of a live node are usable. */
  lemma UsableOut(g: Graph, n: NodeId, es: seq<EdgeId>)
    requires GraphValid(g) && n in g.store && forall t :: 0 <= t < |es| ==> es[t] in g.store[n].edges
    ensures Usable(g, es)
  {
    forall t | 0 <= t < |es| ensures EdgeUsable(g, es[t]) {
      assert OutEdgeOk(g, n, es[t]);
    }
  }

  /** The representative of an edge's target is a variable of the graph, hence an arena handle. */
  lemma TargetVarBelow(g: Graph, e: EdgeId, n: nat)
    requires GraphValid(g) && EdgeUsable(g, e) && forall v :: v in g.nodes ==> v < n
    ensures TargetVar(g, e) < n
  {
    assert MappedTo(g, TargetVar(g, e), g.edges[e].target);
  }
}
