/**
 * The part of the `yourbasic/graph` mutable graph that the wiring uses: a directed
 * edge set over command indices, with an edge query and an edge insertion.
 */
module DepGraph {

  class Graph {
    var edges: set<(nat, nat)>

    constructor ()
      ensures edges == {}
    {
      edges := {};
    }

    /** `g.Edge(v, w)`: reports whether the edge from `v` to `w` is present. */
    method Edge(v: nat, w: nat) returns (present: bool)
      ensures present <==> (v, w) in edges
    {
      present := (v, w) in edges;
    }

    /** `g.Add(v, w)`: insert the edge from `v` to `w`. */
    method Add(v: nat, w: nat)
      modifies this
      ensures edges == old(edges) + {(v, w)}
    {
      edges := edges + {(v, w)};
    }
  }
}
