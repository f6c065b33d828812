/**
 * The graph the algorithms run over, as an arena: nodes are the indices
 * 0..N()-1 (each with a unique name), arcs are indices into `arcs`, and
 * every node keeps the list of ids of the arcs that leave it.
 */
module Graphs {

  type NodeId = nat
  type ArcId = nat

  /** A directed, costed arc. Costs are non-negative. */
  datatype Arc = Arc(start: NodeId, finish: NodeId, cost: nat)

  datatype Graph = Graph(names: seq<string>, arcs: seq<Arc>, adj: seq<seq<ArcId>>)
  {
    function N(): nat { |names| }

    /**
     * What the graph supplier guarantees: arc endpoints are nodes, node
     * names are unique, a node's list holds only arcs that start there,
     * and every arc was added to the list of its own start node.
     */
    ghost predicate Valid() {
      && |adj| == |names|
      && (forall i, j :: 0 <= i < j < |names| ==> names[i] != names[j])
      && (forall a :: 0 <= a < |arcs| ==> arcs[a].start < |names| && arcs[a].finish < |names|)
      && (forall v, k :: 0 <= v < |adj| && 0 <= k < |adj[v]| ==>
            adj[v][k] < |arcs| && arcs[adj[v][k]].start == v)
      && (forall a :: 0 <= a < |arcs| ==> a in adj[arcs[a].start])
    }

    /**
     * The loader's construction: every undirected input edge becomes two
     * arcs, stored next to each other, the second the reverse of the first.
     */
    ghost predicate Reciprocal() {
      && |arcs| % 2 == 0
      && forall k :: 0 <= k < |arcs| / 2 ==>
           arcs[2 * k + 1] == Arc(arcs[2 * k].finish, arcs[2 * k].start, arcs[2 * k].cost)
    }
  }

  /** Every id in `w` names an arc of `g`. */
  predicate ValidIds(g: Graph, w: seq<ArcId>) {
    forall k :: 0 <= k < |w| ==> w[k] < |g.arcs|
  }

  function Last<T>(s: seq<T>): T
    requires |s| > 0
  {
    s[|s| - 1]
  }

  function Init<T>(s: seq<T>): seq<T>
    requires |s| > 0
  {
    s[..|s| - 1]
  }

  /** The sum of the costs of the arcs of `w`. */
  function Cost(g: Graph, w: seq<ArcId>): nat
    requires ValidIds(g, w)
    decreases |w|
  {
    if w == [] then 0 else Cost(g, Init(w)) + g.arcs[Last(w)].cost
  }

  /** `w` leads, arc by arc, from `s` to `t` (the empty walk stays at `s`). */
  predicate Joined(g: Graph, s: NodeId, w: seq<ArcId>, t: NodeId)
    requires ValidIds(g, w)
    decreases |w|
  {
    if w == [] then s == t
    else g.arcs[Last(w)].finish == t && Joined(g, s, Init(w), g.arcs[Last(w)].start)
  }

  ghost predicate IsWalk(g: Graph, s: NodeId, w: seq<ArcId>, t: NodeId) {
    ValidIds(g, w) && Joined(g, s, w, t)
  }

  /** Where a walk from `s` along `w` ends. */
  function EndOf(g: Graph, s: NodeId, w: seq<ArcId>): NodeId
    requires ValidIds(g, w)
  {
    if w == [] then s else g.arcs[Last(w)].finish
  }

  /** A walk ends where EndOf says, and a valid graph keeps it inside the node range. */
  lemma WalkEnd(g: Graph, s: NodeId, w: seq<ArcId>, t: NodeId)
    requires g.Valid() && s < g.N()
    requires IsWalk(g, s, w, t)
    ensures t == EndOf(g, s, w) && t < g.N()
  {
  }

  /** Appending an arc that leaves the end of a walk gives a walk one arc longer, costing that arc more. */
  lemma WalkExtend(g: Graph, s: NodeId, w: seq<ArcId>, t: NodeId, a: ArcId)
    requires IsWalk(g, s, w, t)
    requires a < |g.arcs| && g.arcs[a].start == t
    ensures IsWalk(g, s, w + [a], g.arcs[a].finish)
    ensures Cost(g, w + [a]) == Cost(g, w) + g.arcs[a].cost
  {
    assert Init(w + [a]) == w;
  }

  /** A non-empty walk is a shorter walk followed by one arc that leaves its end. */
  lemma WalkInit(g: Graph, s: NodeId, w: seq<ArcId>, t: NodeId)
    requires IsWalk(g, s, w, t) && w != []
    ensures Last(w) < |g.arcs| && g.arcs[Last(w)].finish == t
    ensures IsWalk(g, s, Init(w), g.arcs[Last(w)].start)
    ensures Cost(g, w) == Cost(g, Init(w)) + g.arcs[Last(w)].cost
  {
  }

  /**
   * A set of nodes that holds `s` and that no arc leaves is never left by a
   * walk from `s`.
   */
  lemma {:induction false} ClosedReach(g: Graph, s: NodeId, closed: set<NodeId>, w: seq<ArcId>, t: NodeId)
    requires s in closed
    requires forall a :: 0 <= a < |g.arcs| && g.arcs[a].start in closed ==> g.arcs[a].finish in closed
    ensures IsWalk(g, s, w, t) ==> t in closed
    decreases |w|
  {
    if w != [] && IsWalk(g, s, w, t) {
      ClosedReach(g, s, closed, Init(w), g.arcs[Last(w)].start);
    }
  }
}
