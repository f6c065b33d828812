/**
 * The Path class: a walk accumulated arc by arc, with its running total
 * cost and the set of nodes it has recorded. Arcs are ids into the graph
 * arena the path was made for.
 */
module Paths {
  import opened Graphs

  /**
   * The node set that `add` builds up for the arcs `w`, added in order: each
   * arc's finish, and its start whenever the cost accumulated before it is 0.
   */
  function Visited(g: Graph, w: seq<ArcId>): set<NodeId>
    requires ValidIds(g, w)
    decreases |w|
  {
    if w == [] then {}
    else
      var a := g.arcs[Last(w)];
      Visited(g, Init(w)) + (if Cost(g, Init(w)) == 0 then {a.start} else {}) + {a.finish}
  }

  /** The finish nodes of the arcs of `w`. */
  function Finishes(g: Graph, w: seq<ArcId>): set<NodeId>
    requires ValidIds(g, w)
  {
    set k | 0 <= k < |w| :: g.arcs[w[k]].finish
  }

  /**
   * For a connected walk from `s` the recorded nodes are exactly `s` and every
   * arc's finish: the start of a later zero-cost arc is already there.
   */
  lemma {:induction false} VisitedOfWalk(g: Graph, s: NodeId, w: seq<ArcId>, t: NodeId)
    requires IsWalk(g, s, w, t) && |w| > 0
    ensures Visited(g, w) == {s} + Finishes(g, w)
    decreases |w|
  {
    var a := Last(w);
    var v := Init(w);
    var m := g.arcs[a].start;
    assert Joined(g, s, v, m);
    assert Finishes(g, w) == Finishes(g, v) + {g.arcs[a].finish} by {
      forall x | x in Finishes(g, w) ensures x in Finishes(g, v) + {g.arcs[a].finish} {
        var k :| 0 <= k < |w| && g.arcs[w[k]].finish == x;
        if k < |v| { assert v[k] == w[k]; }
      }
      forall x | x in Finishes(g, v) ensures x in Finishes(g, w) {
        var k :| 0 <= k < |v| && g.arcs[v[k]].finish == x;
        assert w[k] == v[k];
      }
      assert w[|w| - 1] == a;
    }
    if v == [] {
      assert m == s;
    } else {
      VisitedOfWalk(g, s, v, m);
      assert m == g.arcs[Last(v)].finish;
      assert Last(v) == v[|v| - 1];
      assert m in Finishes(g, v);
    }
  }

  /** Every recorded node is a node of the graph. */
  lemma {:induction false} VisitedInRange(g: Graph, w: seq<ArcId>)
    requires g.Valid() && ValidIds(g, w)
    ensures forall v :: v in Visited(g, w) ==> v < g.N()
    decreases |w|
  {
    if w != [] {
      VisitedInRange(g, Init(w));
    }
  }

  /** The decimal digits of `c`, most significant first. */
  function DecimalText(c: nat): (r: string)
    ensures |r| > 0
    ensures forall i :: 0 <= i < |r| ==> '0' <= r[i] <= '9'
    decreases c
  {
    if c < 10 then [(48 + c) as char]
    else DecimalText(c / 10) + [(48 + c % 10) as char]
  }

  /** One line of the textual form: "start -> finish (cost)" and a newline. */
  function ArcLine(g: Graph, a: ArcId): string
    requires g.Valid() && a < |g.arcs|
  {
    var arc := g.arcs[a];
    g.names[arc.start] + " -> " + g.names[arc.finish] + " (" + DecimalText(arc.cost) + ")" + "\n"
  }

  /** The textual form of `w`: its lines, in arc order. */
  function Render(g: Graph, w: seq<ArcId>): string
    requires g.Valid() && ValidIds(g, w)
    decreases |w|
  {
    if w == [] then "" else Render(g, Init(w)) + ArcLine(g, Last(w))
  }

  function Newlines(s: string): nat
    decreases |s|
  {
    if s == [] then 0 else (if s[0] == '\n' then 1 else 0) + Newlines(s[1..])
  }

  lemma {:induction false} NewlinesAppend(a: string, b: string)
    ensures Newlines(a + b) == Newlines(a) + Newlines(b)
    decreases |a|
  {
    if a == [] {
      assert a + b == b;
    } else {
      assert (a + b)[0] == a[0];
      assert (a + b)[1..] == a[1..] + b;
      NewlinesAppend(a[1..], b);
    }
  }

  lemma {:induction false} NoNewlines(s: string)
    requires forall i :: 0 <= i < |s| ==> s[i] != '\n'
    ensures Newlines(s) == 0
    decreases |s|
  {
    if s != [] {
      NoNewlines(s[1..]);
    }
  }

  /** No node name contains a line break. */
  ghost predicate PlainNames(g: Graph) {
    forall v, i :: 0 <= v < |g.names| && 0 <= i < |g.names[v]| ==> g.names[v][i] != '\n'
  }

  /** The textual form has exactly one line per arc. */
  lemma {:induction false} RenderLineCount(g: Graph, w: seq<ArcId>)
    requires g.Valid() && ValidIds(g, w) && PlainNames(g)
    ensures Newlines(Render(g, w)) == |w|
    decreases |w|
  {
    if w != [] {
      var arc := g.arcs[Last(w)];
      var text := g.names[arc.start] + " -> " + g.names[arc.finish] + " (" + DecimalText(arc.cost) + ")";
      assert ArcLine(g, Last(w)) == text + "\n";
      NoNewlines(text);
      NewlinesAppend(text, "\n");
      RenderLineCount(g, Init(w));
      NewlinesAppend(Render(g, Init(w)), ArcLine(g, Last(w)));
    }
  }

  /**
   * The state of a Path as a value: what the member-wise copy made by
   * `Path newPath = path;`, by storing a Path in a queue, or by assigning one
   * (`path = queue.dequeue();`) carries over.
   */
  datatype PathValue = PathValue(arcs: seq<ArcId>, nodes: set<NodeId>, costs: nat)

  /** The cost and the node set a path value carries are those of its arcs. */
  ghost predicate Consistent(g: Graph, v: PathValue) {
    ValidIds(g, v.arcs) && v.costs == Cost(g, v.arcs) && v.nodes == Visited(g, v.arcs)
  }

  class Path {
    /** The arena the arc ids point into. */
    const g: Graph
    var arcs: seq<ArcId>
    var nodes: set<NodeId>
    var costs: nat

    /** The three fields are all the state there is, and they agree. */
    ghost predicate Valid()
      reads this
    {
      Consistent(g, Value())
    }

    /** A new path: no arcs, no nodes, cost 0. */
    constructor (g: Graph)
      ensures Valid() && this.g == g
      ensures arcs == [] && nodes == {} && costs == 0
    {
      this.g := g;
      arcs := [];
      nodes := {};
      costs := 0;
    }

    /** The copy made by `Path newPath = path;`: a new object with the same values. */
    constructor CopyOf(other: Path)
      requires other.Valid()
      ensures Valid() && g == other.g
      ensures arcs == other.arcs && nodes == other.nodes && costs == other.costs
    {
      g := other.g;
      arcs := other.arcs;
      nodes := other.nodes;
      costs := other.costs;
    }

    /** The object's state as a value. */
    function Value(): PathValue
      reads this
    {
      PathValue(arcs, nodes, costs)
    }

    /** Copy assignment `path = other;`: every field takes the other path's value. */
    method Assign(v: PathValue)
      requires Consistent(g, v)
      modifies this
      ensures Valid() && Value() == v
    {
      arcs := v.arcs;
      nodes := v.nodes;
      costs := v.costs;
    }

    /** Appends an arc. */
    method Add(a: ArcId)
      requires Valid() && a < |g.arcs|
      modifies this
      ensures Valid()
      ensures arcs == old(arcs) + [a]
      ensures costs == old(costs) + g.arcs[a].cost
      ensures nodes == old(nodes) + (if old(costs) == 0 then {g.arcs[a].start} else {}) + {g.arcs[a].finish}
    {
      assert Init(arcs + [a]) == arcs;
      if costs == 0 {
        nodes := nodes + {g.arcs[a].start};
      }
      arcs := arcs + [a];
      nodes := nodes + {g.arcs[a].finish};
      costs := costs + g.arcs[a].cost;
    }

    /** One "start -> finish (cost)" line per arc, in order. */
    method ToString() returns (s: string)
      requires Valid() && g.Valid()
      ensures s == Render(g, arcs)
    {
      s := "";
      var i := 0;
      while i < |arcs|
        invariant 0 <= i <= |arcs|
        invariant s == Render(g, arcs[..i])
      {
        assert Init(arcs[..i + 1]) == arcs[..i];
        s := s + ArcLine(g, arcs[i]);
        i := i + 1;
      }
      assert arcs[..i] == arcs;
    }

    /** The running total is the sum of the arc costs. */
    function TotalCost(): (c: nat)
      reads this
      requires Valid()
      ensures c == Cost(g, arcs)
    {
      costs
    }

    /** The number of arcs; a path has no arcs exactly when it has recorded no nodes. */
    function Size(): (n: nat)
      reads this
      requires Valid()
      ensures n == |arcs|
      ensures n == 0 <==> nodes == {}
    {
      |arcs|
    }

    /** The arc at position `i`, an arc of the graph. */
    function GetArc(i: nat): (a: ArcId)
      reads this
      requires Valid() && i < |arcs|
      ensures a == arcs[i] && a < |g.arcs|
    {
      arcs[i]
    }

    /** The recorded nodes, as a value; all of them nodes of the graph. */
    function GetNodes(): (s: set<NodeId>)
      reads this
      requires Valid() && g.Valid()
      ensures s == Visited(g, arcs)
      ensures forall v :: v in s ==> v < g.N()
    {
      VisitedInRange(g, arcs);
      nodes
    }
  }
}
