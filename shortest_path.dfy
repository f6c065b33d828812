/**
 * findShortestPath: best-first search over partial paths. Candidate paths
 * wait, as copies, in a priority queue keyed by their total cost; `fixed`
 * records each node at the cost of the first dequeued path that ended there.
 */
module ShortestPath {
  import opened Graphs
  import opened Paths
  import opened PriorityQueues

  /** No walk from `s` to `v` costs less than `c`. */
  ghost predicate LowerBound(g: Graph, s: NodeId, v: NodeId, c: nat) {
    forall w :: IsWalk(g, s, w, v) ==> c <= Cost(g, w)
  }

  /** Every arc that leaves `s` comes straight back to `s`. */
  ghost predicate NoExit(g: Graph, s: NodeId) {
    forall a :: 0 <= a < |g.arcs| && g.arcs[a].start == s ==> g.arcs[a].finish == s
  }

  /** The nodes not fixed yet; the search's termination measure. */
  function Unfixed(g: Graph, fixed: map<NodeId, nat>): set<NodeId> {
    set v | 0 <= v < g.N() && v !in fixed
  }

  /** A queue entry is a non-empty walk from `s`, queued at its total cost. */
  ghost predicate QueueOk(g: Graph, s: NodeId, e: Entry<PathValue>) {
    && Consistent(g, e.item) && |e.item.arcs| > 0
    && IsWalk(g, s, e.item.arcs, EndOf(g, s, e.item.arcs))
    && e.priority == e.item.costs
  }

  ghost predicate QueueInv(g: Graph, s: NodeId, queue: seq<Entry<PathValue>>) {
    forall k :: 0 <= k < |queue| ==> QueueOk(g, s, queue[k])
  }

  /** Each fixed node is fixed at its distance from `s`, which its route attains. */
  ghost predicate FixedOk(g: Graph, s: NodeId, fixed: map<NodeId, nat>, routes: map<NodeId, seq<ArcId>>) {
    forall v :: v in fixed ==>
      && v < g.N() && LowerBound(g, s, v, fixed[v])
      && v in routes && IsWalk(g, s, routes[v], v) && Cost(g, routes[v]) == fixed[v]
  }

  /** `a` leads from a fixed node to one that is not fixed. */
  predicate Crossing(g: Graph, fixed: map<NodeId, nat>, a: ArcId) {
    a < |g.arcs| && g.arcs[a].start in fixed && g.arcs[a].finish !in fixed
  }

  /**
   * The frontier: for every crossing arc, `enq` names an entry, still queued
   * or taken as the current path, that is a walk from `s` to the arc's finish
   * queued at no more than the start's fixed cost plus the arc's cost.
   */
  ghost predicate Frontier(g: Graph, s: NodeId, fixed: map<NodeId, nat>, enq: map<ArcId, Entry<PathValue>>,
                           queue: seq<Entry<PathValue>>, current: PathValue)
  {
    forall a: ArcId :: Crossing(g, fixed, a) ==>
      && a in enq && (enq[a] in queue || enq[a].item == current)
      && enq[a].priority <= fixed[g.arcs[a].start] + g.arcs[a].cost
      && Consistent(g, enq[a].item)
      && EndOf(g, s, enq[a].item.arcs) == g.arcs[a].finish
  }

  /** An entry that is the walk `base` extended by the arc `a`, queued at its total cost. */
  ghost predicate Extends(g: Graph, base: seq<ArcId>, e: Entry<PathValue>, a: ArcId) {
    Consistent(g, e.item) && e.item.arcs == base + [a] && e.priority == e.item.costs
  }

  /**
   * The key step of the optimality argument. If every fixed cost is a lower
   * bound, and every crossing arc costs at least `m` beyond its start's fixed
   * cost, then every walk from `s` that ends at an unfixed node costs at
   * least `m`.
   */
  lemma {:induction false} FrontierBound(g: Graph, s: NodeId, fixed: map<NodeId, nat>, m: nat, w: seq<ArcId>, x: NodeId)
    requires s in fixed
    requires forall v :: v in fixed ==> LowerBound(g, s, v, fixed[v])
    requires forall a: ArcId :: Crossing(g, fixed, a) ==> m <= fixed[g.arcs[a].start] + g.arcs[a].cost
    requires IsWalk(g, s, w, x)
    ensures x !in fixed ==> m <= Cost(g, w)
    decreases |w|
  {
    if w != [] {
      WalkInit(g, s, w, x);
      var y := g.arcs[Last(w)].start;
      if y in fixed {
        assert fixed[y] <= Cost(g, Init(w));
      } else {
        FrontierBound(g, s, fixed, m, Init(w), y);
      }
    }
  }

  /** From a fixed node, when no arc crosses the frontier, no walk reaches an unfixed node. */
  lemma Unreachable(g: Graph, s: NodeId, fixed: map<NodeId, nat>, t: NodeId)
    requires s in fixed && t !in fixed
    requires forall a: ArcId :: !Crossing(g, fixed, a)
    ensures forall w :: !IsWalk(g, s, w, t)
  {
    forall a | 0 <= a < |g.arcs| && g.arcs[a].start in fixed.Keys ensures g.arcs[a].finish in fixed.Keys {
      assert !Crossing(g, fixed, a);
    }
    forall w ensures IsWalk(g, s, w, t) ==> t in fixed.Keys {
      ClosedReach(g, s, fixed.Keys, w, t);
    }
  }

  /** Fixing `v` at the cost of a walk to it that no walk beats keeps every fixed cost a distance. */
  lemma FixOne(g: Graph, s: NodeId, fixed: map<NodeId, nat>, routes: map<NodeId, seq<ArcId>>,
               v: NodeId, w: seq<ArcId>)
    requires FixedOk(g, s, fixed, routes)
    requires v < g.N() && IsWalk(g, s, w, v) && LowerBound(g, s, v, Cost(g, w))
    ensures FixedOk(g, s, fixed[v := Cost(g, w)], routes[v := w])
  {
  }

  /** Fixing one more node of the graph shrinks the set of unfixed nodes. */
  lemma FixShrinks(g: Graph, fixed: map<NodeId, nat>, v: NodeId, c: nat)
    requires v < g.N() && v !in fixed
    ensures Unfixed(g, fixed[v := c]) < Unfixed(g, fixed)
  {
    assert v in Unfixed(g, fixed) && v !in Unfixed(g, fixed[v := c]);
  }

  /** The arcs of `w`, in order, whose finish is not fixed. */
  function OpenArcs(g: Graph, w: seq<ArcId>, fixed: map<NodeId, nat>): seq<ArcId>
    requires ValidIds(g, w)
    decreases |w|
  {
    if w == [] then []
    else OpenArcs(g, Init(w), fixed) + (if g.arcs[Last(w)].finish !in fixed then [Last(w)] else [])
  }

  /** An arc is open exactly when it is in the list and its finish is not fixed. */
  lemma {:induction false} OpenArcsMember(g: Graph, w: seq<ArcId>, fixed: map<NodeId, nat>, a: ArcId)
    requires ValidIds(g, w)
    ensures a in OpenArcs(g, w, fixed) <==> a in w && a < |g.arcs| && g.arcs[a].finish !in fixed
    decreases |w|
  {
    if w != [] {
      OpenArcsMember(g, Init(w), fixed, a);
      assert w == Init(w) + [Last(w)];
    }
  }

  /** A position at which `x` occurs in `s`. */
  function IndexOf<T(==)>(s: seq<T>, x: T): (i: nat)
    requires x in s
    ensures i < |s| && s[i] == x
  {
    if s[0] == x then 0 else 1 + IndexOf(s[1..], x)
  }

  /**
   * The inner loop over the arcs of the node just fixed: for every arc whose
   * finish is not fixed, in list order, a copy of `path` is extended by that
   * arc and queued at its total cost.
   */
  method ExpandFrom(g: Graph, path: Path, cur: NodeId, fixed: map<NodeId, nat>, queue: seq<Entry<PathValue>>)
    returns (queue': seq<Entry<PathValue>>)
    requires cur < |g.adj| && ValidIds(g, g.adj[cur])
    requires path.g == g && path.Valid()
    ensures |queue'| == |queue| + |OpenArcs(g, g.adj[cur], fixed)| && queue'[..|queue|] == queue
    ensures forall k :: |queue| <= k < |queue'| ==>
              Extends(g, path.arcs, queue'[k], OpenArcs(g, g.adj[cur], fixed)[k - |queue|])
  {
    queue' := queue;
    ghost var open: seq<ArcId> := [];
    var j := 0;
    while j < |g.adj[cur]|
      invariant 0 <= j <= |g.adj[cur]|
      invariant open == OpenArcs(g, g.adj[cur][..j], fixed)
      invariant |queue'| == |queue| + |open| && queue'[..|queue|] == queue
      invariant forall k :: |queue| <= k < |queue'| ==> Extends(g, path.arcs, queue'[k], open[k - |queue|])
    {
      var a := g.adj[cur][j];
      assert Init(g.adj[cur][..j + 1]) == g.adj[cur][..j] && Last(g.adj[cur][..j + 1]) == a;
      if g.arcs[a].finish !in fixed {
        var newPath := new Path.CopyOf(path);
        newPath.Add(a);
        queue' := queue' + [Entry(newPath.Value(), newPath.TotalCost())];
        open := open + [a];
      }
      j := j + 1;
    }
    assert g.adj[cur][..j] == g.adj[cur];
  }

  /**
   * `enq` updated for a round of expansion: each open arc now names the
   * entry queued for it, at its position after the old queue.
   */
  ghost function Recorded(enq: map<ArcId, Entry<PathValue>>, open: seq<ArcId>,
                          queue: seq<Entry<PathValue>>, queue': seq<Entry<PathValue>>): map<ArcId, Entry<PathValue>>
    requires |queue'| == |queue| + |open|
  {
    enq + map a | a in open :: queue'[|queue| + IndexOf(open, a)]
  }

  /** The entries ExpandFrom appends to the queue are queue entries too. */
  lemma ExpandedQueue(g: Graph, s: NodeId, current: PathValue, cur: NodeId, fixed: map<NodeId, nat>,
                      queue: seq<Entry<PathValue>>, queue': seq<Entry<PathValue>>)
    requires g.Valid() && cur < g.N() && Consistent(g, current) && IsWalk(g, s, current.arcs, cur)
    requires QueueInv(g, s, queue)
    requires |queue'| == |queue| + |OpenArcs(g, g.adj[cur], fixed)| && queue'[..|queue|] == queue
    requires forall k :: |queue| <= k < |queue'| ==>
               Extends(g, current.arcs, queue'[k], OpenArcs(g, g.adj[cur], fixed)[k - |queue|])
    ensures QueueInv(g, s, queue')
  {
    var open := OpenArcs(g, g.adj[cur], fixed);
    forall k | 0 <= k < |queue'| ensures QueueOk(g, s, queue'[k]) {
      if k < |queue| {
        assert queue'[k] == queue[k];
      } else {
        var a := open[k - |queue|];
        OpenArcsMember(g, g.adj[cur], fixed, a);
        WalkExtend(g, s, current.arcs, cur, a);
        assert Last(queue'[k].item.arcs) == a;
      }
    }
  }

  /** A crossing arc that leaves `cur` is recorded with the entry queued for it. */
  lemma ArcOfCurrent(g: Graph, s: NodeId, current: PathValue, cur: NodeId, fixed': map<NodeId, nat>,
                     open: seq<ArcId>, queue: seq<Entry<PathValue>>, queue': seq<Entry<PathValue>>,
                     enq: map<ArcId, Entry<PathValue>>, enq': map<ArcId, Entry<PathValue>>, a: ArcId)
    requires g.Valid() && cur < g.N() && Consistent(g, current) && IsWalk(g, s, current.arcs, cur)
    requires cur in fixed' && fixed'[cur] == current.costs && open == OpenArcs(g, g.adj[cur], fixed')
    requires |queue'| == |queue| + |open|
    requires forall k :: |queue| <= k < |queue'| ==> Extends(g, current.arcs, queue'[k], open[k - |queue|])
    requires enq' == Recorded(enq, open, queue, queue')
    requires Crossing(g, fixed', a) && g.arcs[a].start == cur
    ensures && a in enq' && enq'[a] in queue'
            && enq'[a].priority <= fixed'[g.arcs[a].start] + g.arcs[a].cost
            && Consistent(g, enq'[a].item)
            && EndOf(g, s, enq'[a].item.arcs) == g.arcs[a].finish
  {
    OpenArcsMember(g, g.adj[cur], fixed', a);
    var t := IndexOf(open, a);
    assert enq'[a] == queue'[|queue| + t];
    assert Extends(g, current.arcs, queue'[|queue| + t], a);
    WalkExtend(g, s, current.arcs, cur, a);
    assert Last(queue'[|queue| + t].item.arcs) == a;
  }

  /** A crossing arc from an older fixed node keeps its entry, which is still queued. */
  lemma ArcOfOlder(g: Graph, s: NodeId, current: PathValue, cur: NodeId,
                   fixed: map<NodeId, nat>, fixed': map<NodeId, nat>, open: seq<ArcId>,
                   queue: seq<Entry<PathValue>>, queue': seq<Entry<PathValue>>,
                   enq: map<ArcId, Entry<PathValue>>, enq': map<ArcId, Entry<PathValue>>, a: ArcId)
    requires g.Valid() && s < g.N() && cur < g.N() && IsWalk(g, s, current.arcs, cur)
    requires Frontier(g, s, fixed, enq, queue, current)
    requires fixed' == fixed[cur := current.costs] && open == OpenArcs(g, g.adj[cur], fixed')
    requires |queue'| == |queue| + |open| && queue'[..|queue|] == queue
    requires enq' == Recorded(enq, open, queue, queue')
    requires Crossing(g, fixed', a) && g.arcs[a].start != cur
    ensures && a in enq' && enq'[a] in queue'
            && enq'[a].priority <= fixed'[g.arcs[a].start] + g.arcs[a].cost
            && Consistent(g, enq'[a].item)
            && EndOf(g, s, enq'[a].item.arcs) == g.arcs[a].finish
  {
    WalkEnd(g, s, current.arcs, cur);
    OpenArcsMember(g, g.adj[cur], fixed', a);
    assert Crossing(g, fixed, a);
    assert enq'[a] == enq[a];
    assert enq[a] in queue;
    assert queue'[..|queue|] == queue;
  }

  /**
   * Once `cur` is fixed and its arcs expanded, every crossing arc has a queued
   * entry: an old one, or for an arc of `cur` the copy extended by that arc.
   */
  lemma ExpandedFrontier(g: Graph, s: NodeId, current: PathValue, cur: NodeId,
                         fixed: map<NodeId, nat>, fixed': map<NodeId, nat>, open: seq<ArcId>,
                         queue: seq<Entry<PathValue>>, queue': seq<Entry<PathValue>>,
                         enq: map<ArcId, Entry<PathValue>>, enq': map<ArcId, Entry<PathValue>>)
    requires g.Valid() && s < g.N() && cur < g.N() && Consistent(g, current) && IsWalk(g, s, current.arcs, cur)
    requires Frontier(g, s, fixed, enq, queue, current)
    requires fixed' == fixed[cur := current.costs] && open == OpenArcs(g, g.adj[cur], fixed')
    requires |queue'| == |queue| + |open| && queue'[..|queue|] == queue
    requires forall k :: |queue| <= k < |queue'| ==> Extends(g, current.arcs, queue'[k], open[k - |queue|])
    requires enq' == Recorded(enq, open, queue, queue')
    ensures Frontier(g, s, fixed', enq', queue', current)
    ensures forall a: ArcId :: Crossing(g, fixed', a) ==> enq'[a] in queue'
  {
    forall a: ArcId | Crossing(g, fixed', a)
      ensures && a in enq' && enq'[a] in queue'
              && enq'[a].priority <= fixed'[g.arcs[a].start] + g.arcs[a].cost
              && Consistent(g, enq'[a].item)
              && EndOf(g, s, enq'[a].item.arcs) == g.arcs[a].finish
    {
      if g.arcs[a].start == cur {
        ArcOfCurrent(g, s, current, cur, fixed', open, queue, queue', enq, enq', a);
      } else {
        ArcOfOlder(g, s, current, cur, fixed, fixed', open, queue, queue', enq, enq', a);
      }
    }
  }

  /** On the first expansion, of `start` alone, nothing is queued exactly when no arc leaves `start`. */
  lemma FirstExpansion(g: Graph, start: NodeId, c: nat)
    requires g.Valid() && start < g.N()
    ensures OpenArcs(g, g.adj[start], map[start := c]) == [] <==> NoExit(g, start)
  {
    var open := OpenArcs(g, g.adj[start], map[start := c]);
    if open != [] {
      OpenArcsMember(g, g.adj[start], map[start := c], open[0]);
    } else {
      forall a | 0 <= a < |g.arcs| && g.arcs[a].start == start ensures g.arcs[a].finish == start {
        OpenArcsMember(g, g.adj[start], map[start := c], a);
      }
    }
  }

  /**
   * The `fixed.put` step and the loop over the arcs of `cur`: `cur` is fixed
   * at the current path's cost, which is its distance, and every arc to a node
   * not fixed is queued. Afterwards every crossing arc has its entry queued.
   */
  method Settle(g: Graph, start: NodeId, path: Path, cur: NodeId, fixed: map<NodeId, nat>,
                queue: seq<Entry<PathValue>>, ghost routes: map<NodeId, seq<ArcId>>,
                ghost enq: map<ArcId, Entry<PathValue>>)
    returns (fixed': map<NodeId, nat>, queue': seq<Entry<PathValue>>,
             ghost routes': map<NodeId, seq<ArcId>>, ghost enq': map<ArcId, Entry<PathValue>>)
    requires g.Valid() && start < g.N() && cur < g.N()
    requires path.g == g && path.Valid() && IsWalk(g, start, path.arcs, cur)
    requires cur !in fixed && LowerBound(g, start, cur, path.costs)
    requires fixed == map[] ==> cur == start && queue == []
    requires QueueInv(g, start, queue) && FixedOk(g, start, fixed, routes)
    requires Frontier(g, start, fixed, enq, queue, path.Value())
    ensures fixed' == fixed[cur := path.costs]
    ensures |queue'| == |queue| + |OpenArcs(g, g.adj[cur], fixed')| && queue'[..|queue|] == queue
    ensures forall k :: |queue| <= k < |queue'| ==>
              Extends(g, path.arcs, queue'[k], OpenArcs(g, g.adj[cur], fixed')[k - |queue|])
    ensures QueueInv(g, start, queue') && FixedOk(g, start, fixed', routes')
    ensures Frontier(g, start, fixed', enq', queue', path.Value())
    ensures forall a: ArcId :: Crossing(g, fixed', a) ==> enq'[a] in queue'
    ensures fixed == map[] ==> (queue' == [] <==> NoExit(g, start))
  {
    fixed' := fixed[cur := path.TotalCost()];
    routes' := routes[cur := path.arcs];
    FixOne(g, start, fixed, routes, cur, path.arcs);
    queue' := ExpandFrom(g, path, cur, fixed', queue);
    ghost var open := OpenArcs(g, g.adj[cur], fixed');
    enq' := Recorded(enq, open, queue, queue');
    ExpandedQueue(g, start, path.Value(), cur, fixed', queue, queue');
    ExpandedFrontier(g, start, path.Value(), cur, fixed, fixed', open, queue, queue', enq, enq');
    if fixed == map[] {
      assert fixed' == map[start := path.costs];
      FirstExpansion(g, start, path.costs);
    }
  }

  /** When the current path ends at a node already fixed, it is no crossing arc's entry. */
  lemma StaleCurrent(g: Graph, s: NodeId, fixed: map<NodeId, nat>, enq: map<ArcId, Entry<PathValue>>,
                     queue: seq<Entry<PathValue>>, current: PathValue, cur: NodeId)
    requires IsWalk(g, s, current.arcs, cur) && cur in fixed
    requires Frontier(g, s, fixed, enq, queue, current)
    ensures forall a: ArcId :: Crossing(g, fixed, a) ==> enq[a] in queue
  {
  }

  /**
   * The dequeue step. An entry of least priority, taken when every crossing
   * arc's entry is queued, is a walk from `s` that no walk to its end beats
   * unless that end is fixed already; the rest of the queue keeps the
   * invariants, with the taken path as the current one.
   */
  lemma TakeNext(g: Graph, s: NodeId, fixed: map<NodeId, nat>, routes: map<NodeId, seq<ArcId>>,
                 enq: map<ArcId, Entry<PathValue>>, queue: seq<Entry<PathValue>>, k: nat)
    requires s in fixed && IsMinAt(queue, k)
    requires QueueInv(g, s, queue) && FixedOk(g, s, fixed, routes)
    requires Frontier(g, s, fixed, enq, queue, queue[k].item)
    requires forall a: ArcId :: Crossing(g, fixed, a) ==> enq[a] in queue
    ensures QueueInv(g, s, RemoveAt(queue, k))
    ensures Frontier(g, s, fixed, enq, RemoveAt(queue, k), queue[k].item)
    ensures EndOf(g, s, queue[k].item.arcs) !in fixed ==>
              LowerBound(g, s, EndOf(g, s, queue[k].item.arcs), queue[k].item.costs)
  {
    var m := queue[k].priority;
    var p := queue[k].item;
    var r := RemoveAt(queue, k);
    assert QueueOk(g, s, queue[k]);
    forall a: ArcId | Crossing(g, fixed, a) ensures m <= fixed[g.arcs[a].start] + g.arcs[a].cost {
      var i :| 0 <= i < |queue| && queue[i] == enq[a];
    }
    var c := EndOf(g, s, p.arcs);
    forall w | IsWalk(g, s, w, c) ensures c !in fixed ==> p.costs <= Cost(g, w) {
      FrontierBound(g, s, fixed, m, w, c);
    }
    forall i | 0 <= i < |r| ensures QueueOk(g, s, r[i]) {
      assert r[i] == queue[if i < k then i else i + 1];
    }
    forall a: ArcId | Crossing(g, fixed, a) ensures enq[a] in r || enq[a].item == p {
      if enq[a] != queue[k] {
        assert enq[a] in r;
      }
    }
  }

  /**
   * `path = queue.dequeue();` and the move to the end of the new path: the
   * dequeued path becomes the current one, and it is no dearer than any walk
   * to its end unless that end is fixed already.
   */
  method Advance(g: Graph, start: NodeId, path: Path, fixed: map<NodeId, nat>, queue: seq<Entry<PathValue>>,
                 ghost routes: map<NodeId, seq<ArcId>>, ghost enq: map<ArcId, Entry<PathValue>>)
    returns (queue': seq<Entry<PathValue>>, cur': NodeId, ghost k: nat)
    requires g.Valid() && start in fixed && |queue| > 0
    requires QueueInv(g, start, queue) && FixedOk(g, start, fixed, routes)
    requires Frontier(g, start, fixed, enq, queue, path.Value())
    requires forall a: ArcId :: Crossing(g, fixed, a) ==> enq[a] in queue
    requires path.g == g
    modifies path
    ensures IsMinAt(queue, k) && path.Value() == queue[k].item && queue' == RemoveAt(queue, k)
    ensures path.Valid() && path.arcs != [] && IsWalk(g, start, path.arcs, cur') && cur' < g.N()
    ensures Last(path.arcs) < |g.arcs| && cur' == g.arcs[Last(path.arcs)].finish
    ensures |queue'| == |queue| - 1 && QueueInv(g, start, queue')
    ensures Frontier(g, start, fixed, enq, queue', path.Value())
    ensures cur' !in fixed ==> LowerBound(g, start, cur', path.costs)
  {
    var next;
    next, queue', k := Dequeue(queue);
    assert QueueOk(g, start, next);
    TakeNext(g, start, fixed, routes, enq, queue, k);
    path.Assign(next.item);
    cur' := g.arcs[path.GetArc(path.Size() - 1)].finish;
    WalkEnd(g, start, path.arcs, cur');
  }

  /**
   * The search from `start` to `finish`. The result is a walk from `start`.
   * If it ends at `finish` no walk from `start` to `finish` costs less; if it
   * does not, no walk from `start` reaches `finish`. It has no arcs exactly
   * when `start == finish` or no arc leaves `start` for another node. `settled` is the final `fixed`
   * map: each node in it is fixed at its shortest distance from `start`, which
   * `routes` shows to be attained.
   */
  method FindShortestPath(g: Graph, start: NodeId, finish: NodeId)
    returns (path: Path, ghost settled: map<NodeId, nat>, ghost routes: map<NodeId, seq<ArcId>>)
    requires g.Valid() && start < g.N() && finish < g.N()
    ensures path.g == g && path.Valid()
    ensures IsWalk(g, start, path.arcs, EndOf(g, start, path.arcs))
    ensures start == finish ==> path.arcs == [] && path.TotalCost() == 0
    ensures EndOf(g, start, path.arcs) == finish ==> LowerBound(g, start, finish, path.TotalCost())
    ensures EndOf(g, start, path.arcs) != finish ==> forall w :: !IsWalk(g, start, w, finish)
    ensures path.arcs == [] <==> start == finish || NoExit(g, start)
    ensures finish !in settled && (start != finish ==> start in settled)
    ensures FixedOk(g, start, settled, routes)
  {
    path := new Path(g);
    var queue: seq<Entry<PathValue>> := [];
    var fixed: map<NodeId, nat> := map[];
    var cur: NodeId := start;
    routes := map[];
    ghost var enq: map<ArcId, Entry<PathValue>> := map[];

    while cur != finish
      invariant path.g == g && path.Valid() && IsWalk(g, start, path.arcs, cur) && cur < g.N()
      invariant QueueInv(g, start, queue) && FixedOk(g, start, fixed, routes)
      invariant Frontier(g, start, fixed, enq, queue, path.Value())
      invariant finish !in fixed
      invariant fixed != map[] ==> start in fixed && !NoExit(g, start) && path.arcs != []
      invariant fixed == map[] ==> cur == start && queue == [] && path.arcs == []
      invariant cur !in fixed ==> LowerBound(g, start, cur, path.costs)
      decreases Unfixed(g, fixed), |queue|
    {
      if cur !in fixed {
        FixShrinks(g, fixed, cur, path.costs);
        fixed, queue, routes, enq := Settle(g, start, path, cur, fixed, queue, routes, enq);
      } else {
        StaleCurrent(g, start, fixed, enq, queue, path.Value(), cur);
      }

      if |queue| == 0 {
        Unreachable(g, start, fixed, finish);
        settled := fixed;
        return;
      }

      ghost var taken;
      queue, cur, taken := Advance(g, start, path, fixed, queue, routes, enq);
    }
    settled := fixed;
  }

  /** A walk of at least one arc over arcs that each cost something costs something. */
  lemma PositiveCost(g: Graph, s: NodeId, w: seq<ArcId>, t: NodeId)
    requires IsWalk(g, s, w, t) && w != []
    requires forall a :: 0 <= a < |g.arcs| ==> g.arcs[a].cost > 0
    ensures Cost(g, w) > 0
  {
    WalkInit(g, s, w, t);
  }

  /**
   * Three nodes; one edge of cost 1 between nodes 0 and 1, stored as an arc
   * and its reverse; node 2 on its own.
   */
  function DetachedGraph(): (g: Graph)
    ensures g.Valid() && g.N() == 3
  {
    var g := Graph(["A", "B", "C"], [Arc(0, 1, 1), Arc(1, 0, 1)], [[0], [1], []]);
    assert 0 in g.adj[0] && 1 in g.adj[1];
    g
  }

  /** In DetachedGraph an arc leaves node 0 for node 1, every arc costs 1, and no walk from 0 reaches 2. */
  lemma DetachedFacts()
    ensures !NoExit(DetachedGraph(), 0)
    ensures forall a :: 0 <= a < |DetachedGraph().arcs| ==> DetachedGraph().arcs[a].cost > 0
    ensures forall w :: !IsWalk(DetachedGraph(), 0, w, 2)
  {
    var g := DetachedGraph();
    assert g.arcs[0].start == 0 && g.arcs[0].finish == 1;
    forall w ensures !IsWalk(g, 0, w, 2) {
      ClosedReach(g, 0, {0, 1}, w, 2);
    }
  }

  /**
   * The search from node 0 to the unreachable node 2 of DetachedGraph: it
   * returns a path that does not reach node 2 and whose total cost is not 0,
   * which `dijkstraAction` takes for a path found.
   */
  method DetachedSearch() returns (path: Path)
    ensures path.Valid() && path.g == DetachedGraph()
    ensures forall w :: !IsWalk(DetachedGraph(), 0, w, 2)
    ensures path.arcs != [] && EndOf(DetachedGraph(), 0, path.arcs) != 2 && path.TotalCost() != 0
  {
    var g := DetachedGraph();
    ghost var settled, routes;
    path, settled, routes := FindShortestPath(g, 0, 2);
    DetachedFacts();
    PositiveCost(g, 0, path.arcs, EndOf(g, 0, path.arcs));
  }

  /**
   * The search as its caller expects it: when no walk reaches
   * `finish` the result is the empty path, cost 0, instead of the last path
   * taken from the queue. The result has no arcs exactly when `start ==
   * finish` or `finish` cannot be reached; otherwise it is a walk to `finish`
   * that no walk beats.
   */
  method FindPathOrEmpty(g: Graph, start: NodeId, finish: NodeId) returns (path: Path)
    requires g.Valid() && start < g.N() && finish < g.N()
    ensures path.g == g && path.Valid()
    ensures path.arcs == [] <==> start == finish || forall w :: !IsWalk(g, start, w, finish)
    ensures path.arcs != [] ==>
              IsWalk(g, start, path.arcs, finish) && LowerBound(g, start, finish, path.TotalCost())
    ensures path.arcs == [] ==> path.TotalCost() == 0
  {
    ghost var settled, routes;
    path, settled, routes := FindShortestPath(g, start, finish);
    if path.Size() == 0 || g.arcs[path.GetArc(path.Size() - 1)].finish != finish {
      if start != finish && path.arcs == [] {
        // No arc leaves `start` for another node.
        forall w ensures !IsWalk(g, start, w, finish) {
          ClosedReach(g, start, {start}, w, finish);
        }
      }
      path := new Path(g);
    }
  }
}
