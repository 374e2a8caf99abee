/**
 * The dependence graph of GEPs: each Variable lives in a node, a node holds
 * the must-alias class of its variables, and an edge from a base's node to
 * a GEP's node carries the GEP's offset range.  A zero offset merges the two
 * nodes instead (coalesce).
 *
 * Nodes are addressed by stable integer handles; deleting a node removes its
 * handle from the store, so a variable still mapped to it is dangling.
 */
module DepGraphs {
  import opened Ranges
  import opened Constraints
  import opened Compare

  type NodeId = nat
  type EdgeId = nat

  /** A DepNode: its variables, the edges to GEPs computed from it, and the edges into it. */
  datatype Node = Node(variables: set<Var>, edges: set<EdgeId>, inedges: set<EdgeId>)

  /** A DepEdge: the node of the GEP it leads to, the GEP's offset range, and the GEP itself. */
  datatype Edge = Edge(target: NodeId, range: Range, gep: Val)

  /** The node of every variable, the live nodes, every edge created, and the next fresh handle. */
  datatype Graph = Graph(nodes: map<Var, NodeId>, store: map<NodeId, Node>, edges: seq<Edge>, next: NodeId)

  const EmptyGraph := Graph(map[], map[], [], 0)

  /** Every variable is mapped to a live node. */
  predicate NoDangling(g: Graph) {
    forall v :: v in g.nodes ==> g.nodes[v] in g.store
  }

  /** Each variable is among the variables of its node. */
  predicate Held(g: Graph) {
    NoDangling(g) && forall v :: v in g.nodes ==> v in g.store[g.nodes[v]].variables
  }

  /** Variable v is mapped to node n. */
  predicate MappedTo(g: Graph, v: Var, n: NodeId) {
    v in g.nodes && g.nodes[v] == n
  }

  /** A live node's variables are mapped to it. */
  predicate Members(g: Graph) {
    forall n, v :: n in g.store && v in g.store[n].variables ==> MappedTo(g, v, n)
  }

  /** Handles at or above next are unused. */
  predicate FreshNext(g: Graph) {
    forall n :: n in g.store ==> n < g.next
  }

  /** Edge e, leaving node n, exists and leads to a live node that lists it as an in-edge. */
  predicate OutEdgeOk(g: Graph, n: NodeId, e: EdgeId) {
    e < |g.edges| && g.edges[e].target in g.store && e in g.store[g.edges[e].target].inedges
  }

  /** Every out-edge of a live node is sound. */
  predicate OutEdgesValid(g: Graph) {
    forall n, e :: n in g.store && e in g.store[n].edges ==> OutEdgeOk(g, n, e)
  }

  /** Edge e exists and leads to node n. */
  predicate InEdgeOk(g: Graph, n: NodeId, e: EdgeId) {
    e < |g.edges| && g.edges[e].target == n
  }

  /** Every in-edge of a live node targets that node. */
  predicate InEdgesValid(g: Graph) {
    forall n, e :: n in g.store && e in g.store[n].inedges ==> InEdgeOk(g, n, e)
  }

  /** Every live node holds at least one variable. */
  predicate Inhabited(g: Graph) {
    forall n :: n in g.store ==> g.store[n].variables != {}
  }

  /**
   * The graph is intact: no variable dangles, a live node holds exactly the
   * variables mapped to it and at least one, handles at or above next are
   * unused, and the edge sets agree with the edges' targets.
   */
  predicate GraphValid(g: Graph) {
    Held(g) && Members(g) && Inhabited(g) && FreshNext(g) && OutEdgesValid(g) && InEdgesValid(g)
  }

  /** addVariable: a variable without a node gets a fresh node of its own. */
  function WithVariable(g: Graph, v: Var): (g': Graph)
    ensures v in g'.nodes && g'.nodes.Keys == g.nodes.Keys + {v} && g'.edges == g.edges
    ensures FreshNext(g) ==> FreshNext(g') && g.store.Keys <= g'.store.Keys
    ensures forall u :: u in g.nodes ==> g'.nodes[u] == g.nodes[u]
    ensures g'.next >= g.next && (v !in g.nodes ==> g'.nodes[v] == g.next)
  {
    if v in g.nodes then g
    else Graph(g.nodes[v := g.next], g.store[g.next := Node({v}, {}, {})], g.edges, g.next + 1)
  }

  /** The edges with the targets of the moved ones set to b. */
  function Redirect(es: seq<Edge>, moved: set<EdgeId>, b: NodeId): (es': seq<Edge>)
    ensures |es'| == |es|
    ensures forall e :: 0 <= e < |es| ==> es'[e] == if e in moved then es[e].(target := b) else es[e]
    decreases |es|
  {
    if es == [] then []
    else
      var k := |es| - 1;
      Redirect(es[..k], moved, b) + [if k in moved then es[k].(target := b) else es[k]]
  }

  /** Node a folded into node b: its variables, out-edges and in-edges move, and a is deleted. */
  function Merge(g: Graph, a: NodeId, b: NodeId): Graph
    requires a in g.store && b in g.store
  {
    var na, nb := g.store[a], g.store[b];
    Graph(map v | v in g.nodes :: if g.nodes[v] == a then b else g.nodes[v],
          (g.store - {a})[b := Node(nb.variables + na.variables, nb.edges + na.edges, nb.inedges + na.inedges)],
          Redirect(g.edges, na.inedges, b),
          g.next)
  }

  /**
   * coalesce(V1, V2) with every variable of V1's node redirected, its in-edges
   * moved, and nothing done when both already share a node.
   */
  function Coalesced(g: Graph, v1: Var, v2: Var): Graph
    requires GraphValid(g)
  {
    WithVariableValid(g, v1);
    WithVariableValid(WithVariable(g, v1), v2);
    var g1 := WithVariable(WithVariable(g, v1), v2);
    if g1.nodes[v1] == g1.nodes[v2] then g1 else Merge(g1, g1.nodes[v1], g1.nodes[v2])
  }

  /** The variable has no node yet, or a live one. */
  predicate LiveOrNew(g: Graph, v: Var) {
    v in g.nodes ==> g.nodes[v] in g.store
  }

  /**
   * coalesce(V1, V2) as written: only nodes[V1] is redirected, the in-edges
   * are retargeted but stay listed on the deleted node, and V1's old node is
   * deleted even when it is V2's node.
   */
  function CoalescedAsWritten(g: Graph, v1: Var, v2: Var): Graph
    requires LiveOrNew(g, v1) && LiveOrNew(g, v2) && FreshNext(g)
  {
    var g1 := WithVariable(WithVariable(g, v1), v2);
    var a, b := g1.nodes[v1], g1.nodes[v2];
    var na, nb := g1.store[a], g1.store[b];
    Graph(g1.nodes[v1 := b],
          g1.store[b := Node(nb.variables + na.variables, nb.edges + na.edges, nb.inedges)] - {a},
          Redirect(g1.edges, na.inedges, b),
          g1.next)
  }

  /**
   * addEdge(B, A, R, G) for the GEP A = B + R: nothing within one node, the
   * corrected coalesce for the range [0, 0], and otherwise a new edge from
   * B's node to A's node.
   */
  function WithEdge(g: Graph, b: Var, a: Var, r: Range, gep: Val): Graph
    requires GraphValid(g) && a in g.nodes && b in g.nodes
  {
    var na, nb := g.nodes[a], g.nodes[b];
    if na == nb then g
    else if r.lower == 0 && r.upper == 0 then Coalesced(g, a, b)
    else Linked(g, nb, na, r, gep)
  }

  /** A new edge, the next in the edge list, from node src to node dst. */
  function Linked(g: Graph, src: NodeId, dst: NodeId, r: Range, gep: Val): Graph
    requires src in g.store && dst in g.store
  {
    var e := |g.edges|;
    var s := g.store[src := g.store[src].(edges := g.store[src].edges + {e})];
    Graph(g.nodes, s[dst := s[dst].(inedges := s[dst].inedges + {e})], g.edges + [Edge(dst, r, gep)], g.next)
  }

  // ---------------------------------------------------------------------
  // The corrected coalesce keeps the graph intact and joins two classes

  lemma WithVariableValid(g: Graph, v: Var)
    requires GraphValid(g)
    ensures GraphValid(WithVariable(g, v))
  {
    if v !in g.nodes {
      var g' := WithVariable(g, v);
      assert g.next !in g.store;
      assert forall n :: n in g.store ==> g'.store[n] == g.store[n];
      forall u | u in g'.nodes ensures g'.nodes[u] in g'.store && u in g'.store[g'.nodes[u]].variables {
        if u != v {
          assert u in g.store[g.nodes[u]].variables;
        }
      }
      assert Held(g');
      forall n, u | n in g'.store && u in g'.store[n].variables ensures u in g'.nodes && g'.nodes[u] == n {
        if n != g.next {
          assert u in g.store[n].variables;
        }
      }
      assert Members(g');
      forall n, e | n in g'.store && e in g'.store[n].edges
        ensures e < |g'.edges| && g'.edges[e].target in g'.store && e in g'.store[g'.edges[e].target].inedges
      {
        assert n != g.next;
        assert e in g.store[n].edges;
      }
      assert OutEdgesValid(g');
      forall n, e | n in g'.store && e in g'.store[n].inedges ensures e < |g'.edges| && g'.edges[e].target == n {
        assert n != g.next;
        assert e in g.store[n].inedges;
      }
      assert InEdgesValid(g');
    }
  }

  lemma MergeHeld(g: Graph, a: NodeId, b: NodeId)
    requires Held(g) && a in g.store && b in g.store
    ensures Held(Merge(g, a, b))
  {
    var g' := Merge(g, a, b);
    forall v | v in g'.nodes ensures g'.nodes[v] in g'.store && v in g'.store[g'.nodes[v]].variables {
      assert v in g.store[g.nodes[v]].variables;
    }
  }

  lemma MergeMembers(g: Graph, a: NodeId, b: NodeId)
    requires Members(g) && a in g.store && b in g.store && a != b
    ensures Members(Merge(g, a, b))
  {
    var g' := Merge(g, a, b);
    forall n, v | n in g'.store && v in g'.store[n].variables ensures v in g'.nodes && g'.nodes[v] == n {
      if n != b {
        assert g'.store[n] == g.store[n];
        assert g.nodes[v] == n;
      } else if v in g.store[b].variables {
        assert g.nodes[v] == b;
      } else {
        assert v in g.store[a].variables;
        assert g.nodes[v] == a;
      }
    }
  }

  lemma MergeOutEdges(g: Graph, a: NodeId, b: NodeId)
    requires OutEdgesValid(g) && InEdgesValid(g) && a in g.store && b in g.store && a != b
    ensures OutEdgesValid(Merge(g, a, b))
  {
    var g' := Merge(g, a, b);
    var na := g.store[a];
    forall n, e | n in g'.store && e in g'.store[n].edges
      ensures e < |g'.edges| && g'.edges[e].target in g'.store && e in g'.store[g'.edges[e].target].inedges
    {
      var src := if n == b && e in na.edges then a else n;
      assert e in g.store[src].edges;
      var t := g.edges[e].target;
      assert e in g.store[t].inedges;
      if t == a {
        assert g'.edges[e].target == b;
      } else {
        assert e !in na.inedges;
      }
    }
  }

  lemma MergeInEdges(g: Graph, a: NodeId, b: NodeId)
    requires InEdgesValid(g) && a in g.store && b in g.store && a != b
    ensures InEdgesValid(Merge(g, a, b))
  {
    var g' := Merge(g, a, b);
    var na, nb := g.store[a], g.store[b];
    forall n, e | n in g'.store && e in g'.store[n].inedges ensures e < |g'.edges| && g'.edges[e].target == n {
      if n != b {
        assert g'.store[n] == g.store[n];
        assert e in g.store[n].inedges;
        assert g.edges[e].target == n;
        assert e !in na.inedges;
      } else if e in na.inedges {
        assert g.edges[e].target == a;
      } else {
        assert e in nb.inedges;
        assert g.edges[e].target == b;
      }
    }
  }

  lemma MergeValid(g: Graph, a: NodeId, b: NodeId)
    requires GraphValid(g) && a in g.store && b in g.store && a != b
    ensures GraphValid(Merge(g, a, b))
  {
    MergeHeld(g, a, b);
    MergeMembers(g, a, b);
    assert Inhabited(Merge(g, a, b));
    MergeOutEdges(g, a, b);
    MergeInEdges(g, a, b);
  }

  lemma CoalescedValid(g: Graph, v1: Var, v2: Var)
    requires GraphValid(g)
    ensures GraphValid(Coalesced(g, v1, v2))
  {
    WithVariableValid(g, v1);
    WithVariableValid(WithVariable(g, v1), v2);
    var g1 := WithVariable(WithVariable(g, v1), v2);
    if g1.nodes[v1] != g1.nodes[v2] {
      MergeValid(g1, g1.nodes[v1], g1.nodes[v2]);
    }
  }

  /** u shares a node with v1 or with v2. */
  predicate InClassOf(g: Graph, u: Var, v1: Var, v2: Var)
    requires u in g.nodes
  {
    (v1 in g.nodes && g.nodes[u] == g.nodes[v1]) || (v2 in g.nodes && g.nodes[u] == g.nodes[v2])
  }

  /** Folding a into b joins exactly the variables of a and b. */
  lemma MergeJoins(g: Graph, a: NodeId, b: NodeId, u: Var, w: Var)
    requires a in g.store && b in g.store && a != b && u in g.nodes && w in g.nodes
    ensures var g' := Merge(g, a, b);
            g'.nodes[u] == g'.nodes[w] <==>
              g.nodes[u] == g.nodes[w] || (g.nodes[u] in {a, b} && g.nodes[w] in {a, b})
  {
  }

  /**
   * Adding v1 and v2 leaves every old variable where it was; an old variable
   * shares a node with v1 or v2 afterwards exactly when it did before.
   */
  lemma AddedClass(g: Graph, v1: Var, v2: Var, u: Var)
    requires GraphValid(g) && u in g.nodes
    ensures var g1 := WithVariable(WithVariable(g, v1), v2);
            g1.nodes[u] == g.nodes[u] &&
            (InClassOf(g, u, v1, v2) <==> g1.nodes[u] in {g1.nodes[v1], g1.nodes[v2]})
  {
    var g0 := WithVariable(g, v1);
    var g1 := WithVariable(g0, v2);
    assert g.nodes[u] < g.next;
    if v2 !in g0.nodes {
      assert g1.nodes[v2] == g0.next >= g.next;
    }
  }

  /**
   * After coalesce(V1, V2) both variables have a node, the two share it, and
   * every edge keeps its offset range.
   */
  lemma CoalescedShape(g: Graph, v1: Var, v2: Var)
    requires GraphValid(g)
    ensures var g' := Coalesced(g, v1, v2);
            g'.nodes.Keys == g.nodes.Keys + {v1, v2} &&
            g'.nodes[v1] == g'.nodes[v2] &&
            |g'.edges| == |g.edges| &&
            forall e :: 0 <= e < |g.edges| ==> g'.edges[e].range == g.edges[e].range
  {
    WithVariableValid(g, v1);
    WithVariableValid(WithVariable(g, v1), v2);
    var g1 := WithVariable(WithVariable(g, v1), v2);
    var a, b := g1.nodes[v1], g1.nodes[v2];
    assert g1.nodes.Keys == g.nodes.Keys + {v1, v2} && g1.edges == g.edges;
    if a != b {
      assert Coalesced(g, v1, v2) == Merge(g1, a, b);
      MergeShape(g1, a, b);
    }
  }

  /** Folding a into b keeps the variables and the edge ranges, and puts a's variables on b. */
  lemma MergeShape(g: Graph, a: NodeId, b: NodeId)
    requires a in g.store && b in g.store
    ensures var g' := Merge(g, a, b);
            g'.nodes.Keys == g.nodes.Keys &&
            (forall v :: v in g.nodes && g.nodes[v] in {a, b} ==> g'.nodes[v] == b) &&
            |g'.edges| == |g.edges| &&
            forall e :: 0 <= e < |g.edges| ==> g'.edges[e].range == g.edges[e].range
  {
  }

  /**
   * After coalesce(V1, V2) two variables share a node exactly when they did
   * before or each shared one with V1 or V2.
   */
  lemma CoalescedJoins(g: Graph, v1: Var, v2: Var, u: Var, w: Var)
    requires GraphValid(g) && u in g.nodes && w in g.nodes
    ensures var g' := Coalesced(g, v1, v2);
            g'.nodes[u] == g'.nodes[w] <==>
              g.nodes[u] == g.nodes[w] || (InClassOf(g, u, v1, v2) && InClassOf(g, w, v1, v2))
  {
    WithVariableValid(g, v1);
    WithVariableValid(WithVariable(g, v1), v2);
    var g1 := WithVariable(WithVariable(g, v1), v2);
    AddedClass(g, v1, v2, u);
    AddedClass(g, v1, v2, w);
    if g1.nodes[v1] != g1.nodes[v2] {
      MergeJoins(g1, g1.nodes[v1], g1.nodes[v2], u, w);
    }
  }

  /** A second coalesce of the same pair changes nothing. */
  lemma CoalescedIdempotent(g: Graph, v1: Var, v2: Var)
    requires GraphValid(g)
    ensures GraphValid(Coalesced(g, v1, v2)) && Coalesced(Coalesced(g, v1, v2), v1, v2) == Coalesced(g, v1, v2)
  {
    CoalescedValid(g, v1, v2);
    CoalescedShape(g, v1, v2);
  }

  lemma LinkedHeld(g: Graph, src: NodeId, dst: NodeId, r: Range, gep: Val)
    requires Held(g) && src in g.store && dst in g.store
    ensures Held(Linked(g, src, dst, r, gep))
  {
    var g' := Linked(g, src, dst, r, gep);
    forall v | v in g'.nodes ensures g'.nodes[v] in g'.store && v in g'.store[g'.nodes[v]].variables {
      assert v in g.store[g.nodes[v]].variables;
    }
  }

  lemma LinkedMembers(g: Graph, src: NodeId, dst: NodeId, r: Range, gep: Val)
    requires Members(g) && src in g.store && dst in g.store
    ensures Members(Linked(g, src, dst, r, gep))
  {
    var g' := Linked(g, src, dst, r, gep);
    forall n, v | n in g'.store && v in g'.store[n].variables ensures MappedTo(g', v, n) {
      assert v in g.store[n].variables;
    }
  }

  lemma LinkedOutEdges(g: Graph, src: NodeId, dst: NodeId, r: Range, gep: Val)
    requires OutEdgesValid(g) && src in g.store && dst in g.store
    ensures OutEdgesValid(Linked(g, src, dst, r, gep))
  {
    var g' := Linked(g, src, dst, r, gep);
    var e := |g.edges|;
    forall n, x | n in g'.store && x in g'.store[n].edges ensures OutEdgeOk(g', n, x) {
      if x != e {
        assert x in g.store[n].edges;
        assert OutEdgeOk(g, n, x);
        assert g'.edges[x] == g.edges[x];
      }
    }
  }

  lemma LinkedInEdges(g: Graph, src: NodeId, dst: NodeId, r: Range, gep: Val)
    requires InEdgesValid(g) && src in g.store && dst in g.store
    ensures InEdgesValid(Linked(g, src, dst, r, gep))
  {
    var g' := Linked(g, src, dst, r, gep);
    var e := |g.edges|;
    forall n, x | n in g'.store && x in g'.store[n].inedges ensures InEdgeOk(g', n, x) {
      if x != e {
        assert x in g.store[n].inedges;
        assert InEdgeOk(g, n, x);
        assert g'.edges[x] == g.edges[x];
      } else {
        assert n == dst;
      }
    }
  }

  lemma WithEdgeValid(g: Graph, b: Var, a: Var, r: Range, gep: Val)
    requires GraphValid(g) && a in g.nodes && b in g.nodes
    ensures GraphValid(WithEdge(g, b, a, r, gep))
  {
    var na, nb := g.nodes[a], g.nodes[b];
    if na == nb {
    } else if r.lower == 0 && r.upper == 0 {
      CoalescedValid(g, a, b);
    } else {
      LinkedHeld(g, nb, na, r, gep);
      LinkedMembers(g, nb, na, r, gep);
      LinkedOutEdges(g, nb, na, r, gep);
      LinkedInEdges(g, nb, na, r, gep);
    }
  }

  /**
   * addEdge: within one node nothing changes; a zero range puts A and B in
   * one node; otherwise a new edge with range R leaves B's node and enters
   * A's node.
   */
  lemma WithEdgeEffect(g: Graph, b: Var, a: Var, r: Range, gep: Val)
    requires GraphValid(g) && a in g.nodes && b in g.nodes
    ensures var g' := WithEdge(g, b, a, r, gep);
            (g.nodes[a] == g.nodes[b] ==> g' == g) &&
            (g.nodes[a] != g.nodes[b] && r == Range(0, 0) ==> g'.nodes[a] == g'.nodes[b] && g'.edges == Redirect(g.edges, g.store[g.nodes[a]].inedges, g.nodes[b])) &&
            (g.nodes[a] != g.nodes[b] && r != Range(0, 0) ==>
               g'.edges == g.edges + [Edge(g.nodes[a], r, gep)] && g'.nodes == g.nodes &&
               |g.edges| in g'.store[g.nodes[b]].edges && |g.edges| in g'.store[g.nodes[a]].inedges)
  {
    if g.nodes[a] != g.nodes[b] && r == Range(0, 0) {
      CoalescedShape(g, a, b);
    }
  }

  // ---------------------------------------------------------------------
  // What goes wrong in the coalesce as written

  /**
   * coalesce(A, B) then coalesce(B, C): A still maps to the node deleted by
   * the second call.  CoalescedValid shows the corrected coalesce leaves no
   * variable dangling.
   */
  lemma CoalesceChainDangles()
    ensures var g := CoalescedAsWritten(EmptyGraph, 0, 1);
            LiveOrNew(g, 1) && LiveOrNew(g, 2) && FreshNext(g) &&
            var g2 := CoalescedAsWritten(g, 1, 2);
            0 in g2.nodes && g2.nodes[0] !in g2.store
  {
    var g0 := WithVariable(WithVariable(EmptyGraph, 0), 1);
    assert g0.nodes == map[0 := 0, 1 := 1] && g0.store.Keys == {0, 1} && g0.next == 2;
    var g := CoalescedAsWritten(EmptyGraph, 0, 1);
    assert g.nodes == map[0 := 1, 1 := 1] && g.store.Keys == {1} && g.next == 2;
    var g1 := WithVariable(WithVariable(g, 1), 2);
    assert g1.nodes == map[0 := 1, 1 := 1, 2 := 2] && g1.store.Keys == {1, 2};
    var g2 := CoalescedAsWritten(g, 1, 2);
    assert g2.nodes[0] == 1 && g2.store.Keys == {2};
  }

  /**
   * coalesce(A, B) twice: the second call deletes the node A and B share,
   * leaving both dangling.  CoalescedIdempotent shows the corrected
   * coalesce changes nothing.
   */
  lemma CoalesceTwiceDeletesLive()
    ensures var g := CoalescedAsWritten(EmptyGraph, 0, 1);
            LiveOrNew(g, 0) && LiveOrNew(g, 1) && FreshNext(g) &&
            var g2 := CoalescedAsWritten(g, 0, 1);
            0 in g2.nodes && 1 in g2.nodes && g2.nodes[0] !in g2.store && g2.nodes[1] !in g2.store
  {
    var g0 := WithVariable(WithVariable(EmptyGraph, 0), 1);
    assert g0.nodes == map[0 := 0, 1 := 1] && g0.store.Keys == {0, 1} && g0.next == 2;
    var g := CoalescedAsWritten(EmptyGraph, 0, 1);
    assert g.nodes == map[0 := 1, 1 := 1] && g.store.Keys == {1} && g.next == 2;
    var g2 := CoalescedAsWritten(g, 0, 1);
    assert g2.store.Keys == {};
  }

  /** The in-edges of a live node are existing edges. */
  lemma InEdgesBelow(g: Graph, a: NodeId)
    requires InEdgesValid(g) && a in g.store
    ensures forall e :: e in g.store[a].inedges ==> e < |g.edges|
  {
    forall e | e in g.store[a].inedges ensures e < |g.edges| {
      assert InEdgeOk(g, a, e);
    }
  }

  /** A node map that moves exactly the variables of node a to b is the one Merge builds. */
  lemma MergeNodes(g: Graph, a: NodeId, b: NodeId, m: map<Var, NodeId>)
    requires GraphValid(g) && a in g.store && b in g.store
    requires m.Keys == g.nodes.Keys
    requires forall u :: u in m ==> m[u] == if u in g.store[a].variables then b else g.nodes[u]
    ensures m == Merge(g, a, b).nodes
  {
    forall u | u in m ensures m[u] == Merge(g, a, b).nodes[u] {
      assert u in g.store[a].variables <==> g.nodes[u] == a by {
        assert u in g.store[g.nodes[u]].variables;
        if u in g.store[a].variables {
          assert MappedTo(g, u, a);
        }
      }
    }
  }

  // ---------------------------------------------------------------------
  // The graph object

  /** The DepGraph: its node map, the node and edge stores, and the next free handle. */
  class DepGraph {
    var nodes: map<Var, NodeId>
    var store: map<NodeId, Node>
    var edges: seq<Edge>
    var next: NodeId

    function Model(): Graph
      reads this
    {
      Graph(nodes, store, edges, next)
    }

    ghost predicate Valid()
      reads this
    {
      GraphValid(Model())
    }

    constructor()
      ensures Model() == EmptyGraph && Valid()
    {
      nodes, store, edges, next := map[], map[], [], 0;
    }

    /** addVariable: "if (!nodes.count(V)) { nodes[V] = new DepNode(); nodes[V]->variables.insert(V); }". */
    method AddVariable(v: Var)
      modifies this
      ensures Model() == WithVariable(old(Model()), v)
    {
      if v !in nodes {
        nodes := nodes[v := next];
        store := store[next := Node({v}, {}, {})];
        next := next + 1;
      }
    }

    /**
     * coalesce(V1, V2), corrected: V1's node is folded into V2's node, every
     * variable and in-edge of it is redirected, and then it is deleted.
     */
    method Coalesce(v1: Var, v2: Var)
      requires Valid()
      modifies this
      ensures Valid() && Model() == Coalesced(old(Model()), v1, v2)
    {
      ghost var g := Model();
      CoalescedValid(g, v1, v2);
      AddVariable(v1);
      AddVariable(v2);
      WithVariableValid(g, v1);
      WithVariableValid(WithVariable(g, v1), v2);
      var a, b := nodes[v1], nodes[v2];
      if a != b {
        Fold(a, b);
      }
    }

    /** The body of coalesce once both nodes exist and differ: node a is folded into node b. */
    method Fold(a: NodeId, b: NodeId)
      requires Valid() && a in store && b in store && a != b
      modifies this
      ensures Model() == Merge(old(Model()), a, b)
    {
      ghost var g1 := Model();
      var na, nb := store[a], store[b];
      InEdgesBelow(g1, a);
      var todo := na.inedges;
      while todo != {}
        invariant todo <= na.inedges && |edges| == |g1.edges|
        invariant forall e :: 0 <= e < |edges| ==> edges[e] == if e in na.inedges - todo then g1.edges[e].(target := b) else g1.edges[e]
        invariant nodes == g1.nodes && store == g1.store && next == g1.next
        decreases todo
      {
        var e :| e in todo;
        edges := edges[e := edges[e].(target := b)];
        todo := todo - {e};
      }
      assert edges == Redirect(g1.edges, na.inedges, b);
      var vs := na.variables;
      while vs != {}
        invariant vs <= na.variables && nodes.Keys == g1.nodes.Keys
        invariant forall u :: u in nodes ==> nodes[u] == if u in na.variables - vs then b else g1.nodes[u]
        invariant edges == Redirect(g1.edges, na.inedges, b) && store == g1.store && next == g1.next
        decreases vs
      {
        var u :| u in vs;
        nodes := nodes[u := b];
        vs := vs - {u};
      }
      store := (store - {a})[b := Node(nb.variables + na.variables, nb.edges + na.edges, nb.inedges + na.inedges)];
      MergeNodes(g1, a, b, nodes);
    }

    /** addEdge(B, A, R, G): the edge B -> A with range R, or a coalesce for [0, 0]. */
    method AddEdge(b: Var, a: Var, r: Range, gep: Val)
      requires Valid() && a in nodes && b in nodes
      modifies this
      ensures Valid() && Model() == WithEdge(old(Model()), b, a, r, gep)
    {
      WithEdgeValid(Model(), b, a, r, gep);
      if nodes[a] == nodes[b] {
        return;
      }
      if r.lower == 0 && r.upper == 0 {
        Coalesce(a, b);
        return;
      }
      var e := |edges|;
      var na, nb := nodes[a], nodes[b];
      edges := edges + [Edge(na, r, gep)];
      store := store[nb := store[nb].(edges := store[nb].edges + {e})];
      store := store[na := store[na].(inedges := store[na].inedges + {e})];
    }
  }
}
