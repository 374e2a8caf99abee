/**
 * The DepNode and DepEdge objects of the header's dependence graph: a node
 * records the edges that enter and leave it, its provenance flags and its
 * must-alias class; an edge records its two endpoints, its offset range and
 * the offset value.  Adding an edge registers it with both endpoints and
 * deleting it unregisters it from exactly those two.
 */
module DepNodes {
  import opened Opt
  import opened Ranges
  import opened Compare

  class DepNode {
    const v: Val
    var inedges: set<DepEdge>
    var outedges: set<DepEdge>
    /** Provenance: argument, unknown, global, stack allocation, call result. */
    var arg: bool
    var unk: bool
    var global: bool
    var alloca: bool
    var call: bool
    var locs: set<Val>
    /** The must-alias class this node belongs to. */
    var mustalias: set<DepNode>

    /** DepNode(V): no edges, every provenance flag false, and a must-alias class of its own. */
    constructor(v: Val)
      ensures this.v == v && mustalias == {this}
      ensures !arg && !unk && !global && !alloca && !call
      ensures inedges == {} && outedges == {} && locs == {}
    {
      this.v := v;
      inedges, outedges := {}, {};
      arg, unk, global, alloca, call := false, false, false, false, false;
      locs := {};
      mustalias := {this};
    }

    /**
     * addEdge(in, out, r[, o]): a new edge with those endpoints, range and
     * offset (None for the overload without one) joins in's in-edges and
     * out's out-edges.  It was in neither set before, so deleteEdge undoes it.
     */
    static method AddEdge(inNode: DepNode, outNode: DepNode, r: Range, o: Option<Val>) returns (e: DepEdge)
      modifies inNode`inedges, outNode`outedges
      ensures fresh(e) && e.inNode == inNode && e.outNode == outNode && e.range == r && e.offset == o
      ensures e !in old(inNode.inedges) && e !in old(outNode.outedges)
      ensures inNode.inedges == old(inNode.inedges) + {e}
      ensures outNode.outedges == old(outNode.outedges) + {e}
    {
      e := new DepEdge(inNode, outNode, r, o);
      inNode.inedges := inNode.inedges + {e};
      outNode.outedges := outNode.outedges + {e};
    }
  }

  class DepEdge {
    const inNode: DepNode
    const outNode: DepNode
    const range: Range
    const offset: Option<Val>

    constructor(inNode: DepNode, outNode: DepNode, r: Range, o: Option<Val>)
      ensures this.inNode == inNode && this.outNode == outNode && range == r && offset == o
    {
      this.inNode, this.outNode, range, offset := inNode, outNode, r, o;
    }

    /** deleteEdge(e): e leaves its in-node's in-edges and its out-node's out-edges, and nothing else changes. */
    static method DeleteEdge(e: DepEdge)
      modifies e.inNode`inedges, e.outNode`outedges
      ensures e.inNode.inedges == old(e.inNode.inedges) - {e}
      ensures e.outNode.outedges == old(e.outNode.outedges) - {e}
    {
      e.inNode.inedges := e.inNode.inedges - {e};
      e.outNode.outedges := e.outNode.outedges - {e};
    }
  }
}
