/**
 * The Kruskal loop: arcs are taken from a priority queue in order of cost
 * and tested against a partition of the nodes into connected sets. An arc
 * whose ends lie in different sets merges those two sets and joins the
 * tree; any other arc is dropped.
 */
module SpanningTree {
  import opened Graphs
  import opened PriorityQueues

  /** `u` and `v` lie together in one of the sets. */
  ghost predicate SameSet(sets: seq<set<NodeId>>, u: NodeId, v: NodeId) {
    exists i :: 0 <= i < |sets| && u in sets[i] && v in sets[i]
  }

  /** Some set holds `v`. */
  ghost predicate Covered(sets: seq<set<NodeId>>, v: NodeId) {
    exists i :: 0 <= i < |sets| && v in sets[i]
  }

  /** The sets partition the nodes 0..n-1: non-empty, pairwise disjoint, covering exactly those nodes. */
  ghost predicate Partition(sets: seq<set<NodeId>>, n: nat) {
    && (forall i :: 0 <= i < |sets| ==> sets[i] != {})
    && (forall i, j :: 0 <= i < j < |sets| ==> sets[i] !! sets[j])
    && (forall i, v :: 0 <= i < |sets| && v in sets[i] ==> v < n)
    && (forall v :: 0 <= v < n ==> Covered(sets, v))
  }

  /** In a partition a node lies in one set only, so lying together is transitive. */
  lemma SameSetTrans(sets: seq<set<NodeId>>, n: nat, x: NodeId, y: NodeId, z: NodeId)
    requires Partition(sets, n) && SameSet(sets, x, y) && SameSet(sets, y, z)
    ensures SameSet(sets, x, z)
  {
    var i :| 0 <= i < |sets| && x in sets[i] && y in sets[i];
    var j :| 0 <= j < |sets| && y in sets[j] && z in sets[j];
    assert i == j;
  }

  /**
   * The index the scan over the sets leaves behind: that of the last set
   * holding `v`, or 0 when no set holds it.
   */
  function LastIn(sets: seq<set<NodeId>>, v: NodeId): (i: nat)
    ensures (exists k :: 0 <= k < |sets| && v in sets[k]) ==>
              i < |sets| && v in sets[i] && forall k :: i < k < |sets| ==> v !in sets[k]
    ensures (forall k :: 0 <= k < |sets| ==> v !in sets[k]) ==> i == 0
    decreases |sets|
  {
    if sets == [] then 0
    else if v in Last(sets) then |sets| - 1
    else
      var i := LastIn(Init(sets), v);
      assert forall k :: 0 <= k < |sets| - 1 ==> Init(sets)[k] == sets[k];
      i
  }

  /** In a partition the scan finds the one set that holds a node. */
  lemma LocateUnique(sets: seq<set<NodeId>>, n: nat, v: NodeId, i: nat)
    requires Partition(sets, n) && i < |sets| && v in sets[i]
    ensures LastIn(sets, v) == i
  {
  }

  /** The two ends of an arc are found in the same set exactly when they lie together. */
  lemma LocateSame(sets: seq<set<NodeId>>, n: nat, u: NodeId, v: NodeId)
    requires Partition(sets, n) && u < n && v < n
    ensures LastIn(sets, u) == LastIn(sets, v) <==> SameSet(sets, u, v)
  {
    assert Covered(sets, u) && Covered(sets, v);
    var i :| 0 <= i < |sets| && u in sets[i];
    var j :| 0 <= j < |sets| && v in sets[j];
    LocateUnique(sets, n, u, i);
    LocateUnique(sets, n, v, j);
    if SameSet(sets, u, v) {
      var k :| 0 <= k < |sets| && u in sets[k] && v in sets[k];
      LocateUnique(sets, n, u, k);
      LocateUnique(sets, n, v, k);
    }
  }

  /**
   * The scan over the sets: `index1` and `index2` end as the indices of the
   * last sets that hold `u` and `v`, each 0 when no set holds the node.
   */
  method Locate(sets: seq<set<NodeId>>, u: NodeId, v: NodeId) returns (index1: nat, index2: nat)
    ensures index1 == LastIn(sets, u) && index2 == LastIn(sets, v)
  {
    var currIndex := 0;
    index1, index2 := 0, 0;
    while currIndex < |sets|
      invariant 0 <= currIndex <= |sets|
      invariant index1 == LastIn(sets[..currIndex], u) && index2 == LastIn(sets[..currIndex], v)
    {
      assert Init(sets[..currIndex + 1]) == sets[..currIndex];
      if u in sets[currIndex] {
        index1 := currIndex;
      }
      if v in sets[currIndex] {
        index2 := currIndex;
      }
      currIndex := currIndex + 1;
    }
    assert sets[..currIndex] == sets;
  }

  /**
   * `sets[i] += sets[j]` followed by `remove(j)`: set `i` becomes the union,
   * set `j` is gone, and every other set keeps its value and its order.
   */
  function Merge(sets: seq<set<NodeId>>, i: nat, j: nat): (r: seq<set<NodeId>>)
    requires i < |sets| && j < |sets| && i != j
    ensures |r| == |sets| - 1
    ensures r[if i < j then i else i - 1] == sets[i] + sets[j]
    ensures forall k :: 0 <= k < |sets| && k != i && k != j ==> r[if k < j then k else k - 1] == sets[k]
  {
    var u := sets[i := sets[i] + sets[j]];
    u[..j] + u[j + 1..]
  }

  /** Where `Merge(sets, i, j)` puts old set `k`: set `j` into the union, the others in order. */
  function Moved(i: nat, j: nat, k: nat): nat
    requires i != j
  {
    if k == j then (if i < j then i else i - 1) else if k < j then k else k - 1
  }

  /** Which old set sits at position `m` of the merge, when it is not the union. */
  function Source(j: nat, m: nat): nat {
    if m < j then m else m + 1
  }

  /** Every old set is contained in the set it moved to; every new set other than the union is an old set. */
  lemma MergeMoves(sets: seq<set<NodeId>>, i: nat, j: nat)
    requires i < |sets| && j < |sets| && i != j
    ensures forall k :: 0 <= k < |sets| ==>
              Moved(i, j, k) < |Merge(sets, i, j)| && sets[k] <= Merge(sets, i, j)[Moved(i, j, k)]
    ensures forall m :: 0 <= m < |Merge(sets, i, j)| && m != Moved(i, j, i) ==>
              Source(j, m) < |sets| && Source(j, m) != i && Source(j, m) != j &&
              Merge(sets, i, j)[m] == sets[Source(j, m)]
  {
    var r := Merge(sets, i, j);
    forall m | 0 <= m < |r| && m != Moved(i, j, i)
      ensures Source(j, m) < |sets| && Source(j, m) != i && Source(j, m) != j && r[m] == sets[Source(j, m)]
    {
      MergeKeeps(sets, i, j, m);
    }
  }

  /** Two different sets of a partition share no node, whichever comes first. */
  lemma PartsDisjoint(sets: seq<set<NodeId>>, n: nat, a: nat, b: nat)
    requires Partition(sets, n) && a < |sets| && b < |sets| && a != b
    ensures sets[a] !! sets[b]
  {
    if a < b {
      assert sets[a] !! sets[b];
    } else {
      assert sets[b] !! sets[a];
    }
  }

  /** An old set other than the two merged ones keeps its value at its place in the merge. */
  lemma MergeKeeps(sets: seq<set<NodeId>>, i: nat, j: nat, m: nat)
    requires i < |sets| && j < |sets| && i != j && m < |sets| - 1 && m != Moved(i, j, i)
    ensures Source(j, m) < |sets| && Source(j, m) != i && Source(j, m) != j
    ensures Merge(sets, i, j)[m] == sets[Source(j, m)]
  {
    assert Moved(i, j, Source(j, m)) == m;
  }

  /** Two sets of the merge share no node: the union against an old set, or two old sets. */
  lemma MergePairDisjoint(sets: seq<set<NodeId>>, n: nat, i: nat, j: nat, p: nat, q: nat)
    requires Partition(sets, n) && i < |sets| && j < |sets| && i != j && p < q < |sets| - 1
    ensures Merge(sets, i, j)[p] !! Merge(sets, i, j)[q]
  {
    var ri := Moved(i, j, i);
    if p == ri {
      MergeKeeps(sets, i, j, q);
      PartsDisjoint(sets, n, i, Source(j, q));
      PartsDisjoint(sets, n, j, Source(j, q));
    } else if q == ri {
      MergeKeeps(sets, i, j, p);
      PartsDisjoint(sets, n, i, Source(j, p));
      PartsDisjoint(sets, n, j, Source(j, p));
    } else {
      MergeKeeps(sets, i, j, p);
      MergeKeeps(sets, i, j, q);
      PartsDisjoint(sets, n, Source(j, p), Source(j, q));
    }
  }

  /** The sets of the merge are pairwise disjoint. */
  lemma MergeDisjoint(sets: seq<set<NodeId>>, n: nat, i: nat, j: nat)
    requires Partition(sets, n) && i < |sets| && j < |sets| && i != j
    ensures forall p, q :: 0 <= p < q < |Merge(sets, i, j)| ==> Merge(sets, i, j)[p] !! Merge(sets, i, j)[q]
  {
    forall p: nat, q: nat | p < q < |Merge(sets, i, j)| ensures Merge(sets, i, j)[p] !! Merge(sets, i, j)[q] {
      MergePairDisjoint(sets, n, i, j, p, q);
    }
  }

  /** A node some set held is held by some set of the merge. */
  lemma MergeCoversNode(sets: seq<set<NodeId>>, i: nat, j: nat, v: NodeId)
    requires i < |sets| && j < |sets| && i != j && Covered(sets, v)
    ensures Covered(Merge(sets, i, j), v)
  {
    MergeMoves(sets, i, j);
    var k :| 0 <= k < |sets| && v in sets[k];
    assert v in Merge(sets, i, j)[Moved(i, j, k)];
  }

  /** Each set of the merge is the union or an old set. */
  lemma MergeSetFrom(sets: seq<set<NodeId>>, i: nat, j: nat, m: nat)
    requires i < |sets| && j < |sets| && i != j && m < |sets| - 1
    ensures Merge(sets, i, j)[m] == sets[i] + sets[j] ||
            (Source(j, m) < |sets| && Merge(sets, i, j)[m] == sets[Source(j, m)])
  {
    MergeMoves(sets, i, j);
  }

  /** The merge of two sets of a partition covers the same nodes with non-empty sets. */
  lemma MergeCovers(sets: seq<set<NodeId>>, n: nat, i: nat, j: nat)
    requires Partition(sets, n) && i < |sets| && j < |sets| && i != j
    ensures forall v :: 0 <= v < n ==> Covered(Merge(sets, i, j), v)
    ensures forall m :: 0 <= m < |Merge(sets, i, j)| ==>
              Merge(sets, i, j)[m] != {} && forall v :: v in Merge(sets, i, j)[m] ==> v < n
  {
    forall v | 0 <= v < n ensures Covered(Merge(sets, i, j), v) {
      MergeCoversNode(sets, i, j, v);
    }
    forall m | 0 <= m < |Merge(sets, i, j)|
      ensures Merge(sets, i, j)[m] != {} && forall v :: v in Merge(sets, i, j)[m] ==> v < n
    {
      MergeSetFrom(sets, i, j, m);
    }
  }

  /** Two nodes lie together after the merge only if they did before or both lie in the merged sets. */
  lemma MergeSameSetOnly(sets: seq<set<NodeId>>, i: nat, j: nat, x: NodeId, y: NodeId)
    requires i < |sets| && j < |sets| && i != j
    requires SameSet(Merge(sets, i, j), x, y)
    ensures SameSet(sets, x, y) || (x in sets[i] + sets[j] && y in sets[i] + sets[j])
  {
    var r := Merge(sets, i, j);
    MergeMoves(sets, i, j);
    var m :| 0 <= m < |r| && x in r[m] && y in r[m];
    if m != Moved(i, j, i) {
      var k := Source(j, m);
      assert x in sets[k] && y in sets[k];
    }
  }

  /** Two nodes that lay together, or lie in the merged sets, lie together after the merge. */
  lemma MergeSameSetKeeps(sets: seq<set<NodeId>>, i: nat, j: nat, x: NodeId, y: NodeId)
    requires i < |sets| && j < |sets| && i != j
    requires SameSet(sets, x, y) || (x in sets[i] + sets[j] && y in sets[i] + sets[j])
    ensures SameSet(Merge(sets, i, j), x, y)
  {
    var r := Merge(sets, i, j);
    MergeMoves(sets, i, j);
    if SameSet(sets, x, y) {
      var k :| 0 <= k < |sets| && x in sets[k] && y in sets[k];
      assert x in r[Moved(i, j, k)] && y in r[Moved(i, j, k)];
    } else {
      assert x in r[Moved(i, j, i)] && y in r[Moved(i, j, i)];
    }
  }

  /**
   * Merging two sets of a partition gives a partition, in which two nodes lie
   * together exactly when they did before or both lie in the merged sets.
   */
  lemma MergePartition(sets: seq<set<NodeId>>, n: nat, i: nat, j: nat)
    requires Partition(sets, n) && i < |sets| && j < |sets| && i != j
    ensures Partition(Merge(sets, i, j), n)
    ensures forall x, y :: SameSet(Merge(sets, i, j), x, y) <==>
              SameSet(sets, x, y) || (x in sets[i] + sets[j] && y in sets[i] + sets[j])
  {
    MergeDisjoint(sets, n, i, j);
    MergeCovers(sets, n, i, j);
    forall x, y | SameSet(Merge(sets, i, j), x, y)
      ensures SameSet(sets, x, y) || (x in sets[i] + sets[j] && y in sets[i] + sets[j])
    {
      MergeSameSetOnly(sets, i, j, x, y);
    }
    forall x, y | SameSet(sets, x, y) || (x in sets[i] + sets[j] && y in sets[i] + sets[j])
      ensures SameSet(Merge(sets, i, j), x, y)
    {
      MergeSameSetKeeps(sets, i, j, x, y);
    }
  }

  /** `a` joins `u` and `v`, in one direction or the other. */
  predicate Joins(g: Graph, a: ArcId, u: NodeId, v: NodeId)
    requires a < |g.arcs|
  {
    (g.arcs[a].start == u && g.arcs[a].finish == v) || (g.arcs[a].start == v && g.arcs[a].finish == u)
  }

  /** Some arc of `tree` joins `u` and `v`. */
  ghost predicate Adjacent(g: Graph, tree: set<ArcId>, u: NodeId, v: NodeId) {
    exists a :: a in tree && a < |g.arcs| && Joins(g, a, u, v)
  }

  /** A non-empty sequence of nodes, each joined to the next by an arc of `tree`. */
  ghost predicate Chain(g: Graph, tree: set<ArcId>, p: seq<NodeId>) {
    |p| > 0 && forall k :: 0 <= k < |p| - 1 ==> Adjacent(g, tree, p[k], p[k + 1])
  }

  /** `u` and `v` are connected by arcs of `tree`, taken in either direction. */
  ghost predicate Linked(g: Graph, tree: set<ArcId>, u: NodeId, v: NodeId) {
    exists p :: Chain(g, tree, p) && p[0] == u && p[|p| - 1] == v
  }

  lemma LinkedRefl(g: Graph, tree: set<ArcId>, u: NodeId)
    ensures Linked(g, tree, u, u)
  {
    assert Chain(g, tree, [u]);
  }

  lemma LinkedArc(g: Graph, tree: set<ArcId>, a: ArcId)
    requires a in tree && a < |g.arcs|
    ensures Linked(g, tree, g.arcs[a].start, g.arcs[a].finish)
  {
    assert Joins(g, a, g.arcs[a].start, g.arcs[a].finish);
    assert Chain(g, tree, [g.arcs[a].start, g.arcs[a].finish]);
  }

  lemma LinkedTrans(g: Graph, tree: set<ArcId>, x: NodeId, y: NodeId, z: NodeId)
    requires Linked(g, tree, x, y) && Linked(g, tree, y, z)
    ensures Linked(g, tree, x, z)
  {
    var p :| Chain(g, tree, p) && p[0] == x && p[|p| - 1] == y;
    var q :| Chain(g, tree, q) && q[0] == y && q[|q| - 1] == z;
    var c := p + q[1..];
    forall k | 0 <= k < |c| - 1 ensures Adjacent(g, tree, c[k], c[k + 1]) {
      if k < |p| - 1 {
        assert c[k] == p[k] && c[k + 1] == p[k + 1];
      } else {
        assert c[k] == q[k - |p| + 1] && c[k + 1] == q[k - |p| + 2];
      }
    }
    assert Chain(g, tree, c);
  }

  /** Arcs are taken in either direction, so a chain read backwards is a chain. */
  lemma LinkedSym(g: Graph, tree: set<ArcId>, u: NodeId, v: NodeId)
    requires Linked(g, tree, u, v)
    ensures Linked(g, tree, v, u)
  {
    var p :| Chain(g, tree, p) && p[0] == u && p[|p| - 1] == v;
    var q := seq(|p|, k requires 0 <= k < |p| => p[|p| - 1 - k]);
    forall k | 0 <= k < |q| - 1 ensures Adjacent(g, tree, q[k], q[k + 1]) {
      var m := |p| - 2 - k;
      assert q[k] == p[m + 1] && q[k + 1] == p[m];
      assert Adjacent(g, tree, p[m], p[m + 1]);
      var a :| a in tree && a < |g.arcs| && Joins(g, a, p[m], p[m + 1]);
      assert Joins(g, a, q[k], q[k + 1]);
    }
    assert Chain(g, tree, q);
  }

  /** More arcs link at least the same nodes. */
  lemma LinkedMono(g: Graph, tree: set<ArcId>, tree': set<ArcId>, u: NodeId, v: NodeId)
    requires tree <= tree' && Linked(g, tree, u, v)
    ensures Linked(g, tree', u, v)
  {
    var p :| Chain(g, tree, p) && p[0] == u && p[|p| - 1] == v;
    forall k | 0 <= k < |p| - 1 ensures Adjacent(g, tree', p[k], p[k + 1]) {
      assert Adjacent(g, tree, p[k], p[k + 1]);
      var a :| a in tree && a < |g.arcs| && Joins(g, a, p[k], p[k + 1]);
      assert a in tree';
    }
    assert Chain(g, tree', p);
  }

  /** Every arc of `tree` has its two ends in one set. */
  ghost predicate Respects(g: Graph, tree: set<ArcId>, sets: seq<set<NodeId>>) {
    forall a :: a in tree ==> a < |g.arcs| && SameSet(sets, g.arcs[a].start, g.arcs[a].finish)
  }

  /** A chain over arcs that stay within sets does not leave the set it starts in. */
  lemma {:induction false} ChainInSet(g: Graph, tree: set<ArcId>, sets: seq<set<NodeId>>, n: nat, p: seq<NodeId>)
    requires Partition(sets, n) && Respects(g, tree, sets)
    requires Chain(g, tree, p) && p[0] < n
    ensures SameSet(sets, p[0], p[|p| - 1])
    decreases |p|
  {
    if |p| == 1 {
      assert Covered(sets, p[0]);
    } else {
      var q := p[..|p| - 1];
      assert Chain(g, tree, q) by {
        forall k | 0 <= k < |q| - 1 ensures Adjacent(g, tree, q[k], q[k + 1]) {
          assert q[k] == p[k] && q[k + 1] == p[k + 1];
        }
      }
      ChainInSet(g, tree, sets, n, q);
      assert Adjacent(g, tree, p[|p| - 2], p[|p| - 1]);
      var a :| a in tree && a < |g.arcs| && Joins(g, a, p[|p| - 2], p[|p| - 1]);
      assert SameSet(sets, p[|p| - 2], p[|p| - 1]);
      SameSetTrans(sets, n, p[0], p[|p| - 2], p[|p| - 1]);
    }
  }

  /**
   * The loop invariant of the partition: it partitions the nodes, every tree
   * arc stays within a set, any two nodes of one set are linked by tree arcs,
   * and each tree arc has taken one set away from the initial singletons.
   */
  ghost predicate Forest(g: Graph, sets: seq<set<NodeId>>, tree: set<ArcId>) {
    && Partition(sets, g.N())
    && Respects(g, tree, sets)
    && (forall u, v :: SameSet(sets, u, v) ==> Linked(g, tree, u, v))
    && |tree| + |sets| == g.N()
  }

  /** Under the invariant, the sets are the components of the tree: lying together is being linked. */
  lemma ForestLinked(g: Graph, sets: seq<set<NodeId>>, tree: set<ArcId>, u: NodeId, v: NodeId)
    requires Forest(g, sets, tree) && u < g.N()
    ensures Linked(g, tree, u, v) <==> SameSet(sets, u, v)
  {
    if Linked(g, tree, u, v) {
      var p :| Chain(g, tree, p) && p[0] == u && p[|p| - 1] == v;
      ChainInSet(g, tree, sets, g.N(), p);
    }
  }

  /**
   * Two nodes that lie together once the sets of the ends of `a` are merged
   * are linked by the tree with `a` added.
   */
  lemma LinkAcross(g: Graph, sets: seq<set<NodeId>>, tree: set<ArcId>, a: ArcId, i: nat, j: nat,
                   x: NodeId, y: NodeId)
    requires a < |g.arcs| && i < |sets| && j < |sets|
    requires forall u, v :: SameSet(sets, u, v) ==> Linked(g, tree, u, v)
    requires g.arcs[a].start in sets[i] && g.arcs[a].finish in sets[j]
    requires SameSet(sets, x, y) || (x in sets[i] + sets[j] && y in sets[i] + sets[j])
    ensures Linked(g, tree + {a}, x, y)
  {
    var t := tree + {a};
    var s, f := g.arcs[a].start, g.arcs[a].finish;
    if SameSet(sets, x, y) {
      LinkedMono(g, tree, t, x, y);
    } else if x in sets[i] {
      assert y !in sets[i];
      assert SameSet(sets, x, s) && SameSet(sets, f, y);
      LinkedMono(g, tree, t, x, s);
      LinkedMono(g, tree, t, f, y);
      LinkedArc(g, t, a);
      LinkedTrans(g, t, x, s, f);
      LinkedTrans(g, t, x, f, y);
    } else {
      assert y !in sets[j];
      assert SameSet(sets, x, f) && SameSet(sets, s, y);
      LinkedMono(g, tree, t, x, f);
      LinkedMono(g, tree, t, s, y);
      assert Joins(g, a, f, s);
      assert Chain(g, t, [f, s]);
      LinkedTrans(g, t, x, f, s);
      LinkedTrans(g, t, x, s, y);
    }
  }

  /** Accepting an arc whose ends lie in different sets, and merging those sets, keeps the invariant. */
  lemma AcceptKeeps(g: Graph, sets: seq<set<NodeId>>, tree: set<ArcId>, a: ArcId, i: nat, j: nat)
    requires Forest(g, sets, tree) && a < |g.arcs| && a !in tree
    requires i < |sets| && j < |sets| && i != j
    requires g.arcs[a].start in sets[i] && g.arcs[a].finish in sets[j]
    ensures Forest(g, Merge(sets, i, j), tree + {a})
    ensures forall x, y :: SameSet(sets, x, y) ==> SameSet(Merge(sets, i, j), x, y)
  {
    var r := Merge(sets, i, j);
    MergePartition(sets, g.N(), i, j);
    forall x, y | SameSet(r, x, y) ensures Linked(g, tree + {a}, x, y) {
      LinkAcross(g, sets, tree, a, i, j, x, y);
    }
  }

  /**
   * Under the invariant the scan finds both ends of an arc, and finds them in
   * different sets exactly when the tree does not link them yet.
   */
  lemma LocateArc(g: Graph, sets: seq<set<NodeId>>, tree: set<ArcId>, a: ArcId)
    requires g.Valid() && a < |g.arcs| && Forest(g, sets, tree)
    ensures LastIn(sets, g.arcs[a].start) < |sets| && g.arcs[a].start in sets[LastIn(sets, g.arcs[a].start)]
    ensures LastIn(sets, g.arcs[a].finish) < |sets| && g.arcs[a].finish in sets[LastIn(sets, g.arcs[a].finish)]
    ensures Linked(g, tree, g.arcs[a].start, g.arcs[a].finish) <==>
              LastIn(sets, g.arcs[a].start) == LastIn(sets, g.arcs[a].finish)
  {
    var s, f := g.arcs[a].start, g.arcs[a].finish;
    assert Covered(sets, s) && Covered(sets, f);
    LocateSame(sets, g.N(), s, f);
    ForestLinked(g, sets, tree, s, f);
  }

  /**
   * One turn of the loop, after the dequeue: locate the sets of the arc's
   * ends; if they differ, merge them and add the arc to the tree. The arc is
   * accepted exactly when its ends are not yet linked by the tree, a rejected
   * arc changes nothing, and afterwards its ends lie together.
   */
  method Consider(g: Graph, sets: seq<set<NodeId>>, tree: set<ArcId>, a: ArcId)
    returns (sets': seq<set<NodeId>>, tree': set<ArcId>)
    requires g.Valid() && a < |g.arcs| && Forest(g, sets, tree) && a !in tree
    ensures LastIn(sets, g.arcs[a].start) < |sets| && LastIn(sets, g.arcs[a].finish) < |sets|
    ensures Linked(g, tree, g.arcs[a].start, g.arcs[a].finish) ==> sets' == sets && tree' == tree
    ensures !Linked(g, tree, g.arcs[a].start, g.arcs[a].finish) ==>
              LastIn(sets, g.arcs[a].start) != LastIn(sets, g.arcs[a].finish) &&
              tree' == tree + {a} &&
              sets' == Merge(sets, LastIn(sets, g.arcs[a].start), LastIn(sets, g.arcs[a].finish))
    ensures Forest(g, sets', tree')
    ensures SameSet(sets', g.arcs[a].start, g.arcs[a].finish)
    ensures forall x, y :: SameSet(sets, x, y) ==> SameSet(sets', x, y)
  {
    var index1, index2 := Locate(sets, g.arcs[a].start, g.arcs[a].finish);
    LocateArc(g, sets, tree, a);
    if index1 != index2 {
      AcceptKeeps(g, sets, tree, a, index1, index2);
      MergeSameSetKeeps(sets, index1, index2, g.arcs[a].start, g.arcs[a].finish);
      sets' := Merge(sets, index1, index2);
      tree' := tree + {a};
    } else {
      sets', tree' := sets, tree;
    }
  }

  /** `queue.enqueue(arc, arc->cost)` for every arc, in id order. */
  method EnqueueArcs(g: Graph) returns (queue: seq<Entry<ArcId>>)
    ensures |queue| == |g.arcs|
    ensures forall k :: 0 <= k < |queue| ==> queue[k] == Entry(k, g.arcs[k].cost)
  {
    queue := [];
    var a := 0;
    while a < |g.arcs|
      invariant 0 <= a <= |g.arcs|
      invariant |queue| == a && forall k :: 0 <= k < a ==> queue[k] == Entry(k, g.arcs[k].cost)
    {
      queue := queue + [Entry(a, g.arcs[a].cost)];
      a := a + 1;
    }
  }

  /** One singleton set per node, in id order. */
  method Singletons(n: nat) returns (sets: seq<set<NodeId>>)
    ensures |sets| == n && forall v :: 0 <= v < n ==> sets[v] == {v}
  {
    sets := [];
    var v := 0;
    while v < n
      invariant 0 <= v <= n
      invariant |sets| == v && forall u :: 0 <= u < v ==> sets[u] == {u}
    {
      var newSet: set<NodeId> := {};
      newSet := newSet + {v};
      sets := sets + [newSet];
      v := v + 1;
    }
  }

  /** The singletons with an empty tree satisfy the invariant. */
  lemma SingletonsForest(g: Graph, sets: seq<set<NodeId>>)
    requires |sets| == g.N() && forall v :: 0 <= v < g.N() ==> sets[v] == {v}
    ensures Forest(g, sets, {})
  {
    forall v | 0 <= v < g.N() ensures Covered(sets, v) {
      assert v in sets[v];
    }
    forall u, v | SameSet(sets, u, v) ensures Linked(g, {}, u, v) {
      var i :| 0 <= i < |sets| && u in sets[i] && v in sets[i];
      LinkedRefl(g, {}, u);
    }
  }

  /**
   * The order invariant: `order` holds the arcs dequeued so far, all distinct;
   * the queue holds each other arc once, at its cost; and no queued arc costs
   * less than any dequeued one, which are in non-decreasing cost order.
   */
  ghost predicate Scheduled(g: Graph, order: seq<ArcId>, queue: seq<Entry<ArcId>>) {
    && |order| + |queue| == |g.arcs|
    && (forall k :: 0 <= k < |queue| ==>
          queue[k].item < |g.arcs| && queue[k].priority == g.arcs[queue[k].item].cost && queue[k].item !in order)
    && (forall i, j :: 0 <= i < j < |queue| ==> queue[i].item != queue[j].item)
    && (forall i :: 0 <= i < |order| ==> order[i] < |g.arcs|)
    && (forall i, j :: 0 <= i < j < |order| ==> order[i] != order[j])
    && (forall i, j :: 0 <= i < j < |order| ==> g.arcs[order[i]].cost <= g.arcs[order[j]].cost)
    && (forall i, k :: 0 <= i < |order| && 0 <= k < |queue| ==> g.arcs[order[i]].cost <= queue[k].priority)
    && (forall a :: 0 <= a < |g.arcs| ==> a in order || Entry(a, g.arcs[a].cost) in queue)
  }

  /** Every arc enqueued, none taken. */
  lemma InitialScheduled(g: Graph, queue: seq<Entry<ArcId>>)
    requires |queue| == |g.arcs| && forall k :: 0 <= k < |queue| ==> queue[k] == Entry(k, g.arcs[k].cost)
    ensures Scheduled(g, [], queue)
  {
    forall a | 0 <= a < |g.arcs| ensures Entry(a, g.arcs[a].cost) in queue {
      assert queue[a] == Entry(a, g.arcs[a].cost);
    }
  }

  /** Dequeuing an entry of least priority extends the order and keeps the invariant. */
  lemma DequeueScheduled(g: Graph, order: seq<ArcId>, queue: seq<Entry<ArcId>>, k: nat)
    requires Scheduled(g, order, queue) && IsMinAt(queue, k)
    ensures Scheduled(g, order + [queue[k].item], RemoveAt(queue, k))
  {
    var o := order + [queue[k].item];
    var r := RemoveAt(queue, k);
    forall i, j | 0 <= i < j < |r| ensures r[i].item != r[j].item {
      assert r[i] == queue[if i < k then i else i + 1];
      assert r[j] == queue[if j < k then j else j + 1];
    }
    forall i | 0 <= i < |r| ensures r[i].item !in o && g.arcs[o[|o| - 1]].cost <= r[i].priority {
      assert r[i] == queue[if i < k then i else i + 1];
    }
    forall a | 0 <= a < |g.arcs| ensures a in o || Entry(a, g.arcs[a].cost) in r {
      if a !in order && Entry(a, g.arcs[a].cost) != queue[k] {
        assert Entry(a, g.arcs[a].cost) in r;
      }
    }
  }

  /** The ids below `n`. */
  function Below(n: nat): (r: set<nat>)
    ensures forall a: nat :: a in r <==> a < n
  {
    if n == 0 then {} else Below(n - 1) + {n - 1}
  }

  /** Every arc of the graph. */
  function AllArcs(g: Graph): set<ArcId> {
    Below(|g.arcs|)
  }

  /** When the tree links the two ends of every arc, it links whatever the arcs of the graph link. */
  lemma {:induction false} Spans(g: Graph, tree: set<ArcId>, p: seq<NodeId>)
    requires forall a :: 0 <= a < |g.arcs| ==> Linked(g, tree, g.arcs[a].start, g.arcs[a].finish)
    requires Chain(g, AllArcs(g), p)
    ensures Linked(g, tree, p[0], p[|p| - 1])
    decreases |p|
  {
    if |p| == 1 {
      LinkedRefl(g, tree, p[0]);
    } else {
      var q := p[..|p| - 1];
      assert Chain(g, AllArcs(g), q) by {
        forall k | 0 <= k < |q| - 1 ensures Adjacent(g, AllArcs(g), q[k], q[k + 1]) {
          assert q[k] == p[k] && q[k + 1] == p[k + 1];
        }
      }
      Spans(g, tree, q);
      var x, y := p[|p| - 2], p[|p| - 1];
      assert Adjacent(g, AllArcs(g), x, y);
      var a :| a in AllArcs(g) && a < |g.arcs| && Joins(g, a, x, y);
      if g.arcs[a].start != x {
        LinkedSym(g, tree, g.arcs[a].start, g.arcs[a].finish);
      }
      LinkedTrans(g, tree, p[0], x, y);
    }
  }

  /**
   * The arcs dequeued so far: the tree is drawn from them, and each has its
   * two ends in one set.
   */
  ghost predicate Processed(g: Graph, order: seq<ArcId>, sets: seq<set<NodeId>>, tree: set<ArcId>) {
    && (forall a :: a in tree ==> a in order)
    && (forall b :: b in order ==> b < |g.arcs| && SameSet(sets, g.arcs[b].start, g.arcs[b].finish))
  }

  /** Considering one more arc keeps Processed, with the arc appended to the order. */
  lemma ProcessedStep(g: Graph, order: seq<ArcId>, sets: seq<set<NodeId>>, tree: set<ArcId>,
                      sets': seq<set<NodeId>>, tree': set<ArcId>, a: ArcId)
    requires Processed(g, order, sets, tree) && a < |g.arcs| && tree' <= tree + {a}
    requires forall x, y :: SameSet(sets, x, y) ==> SameSet(sets', x, y)
    requires SameSet(sets', g.arcs[a].start, g.arcs[a].finish)
    ensures Processed(g, order + [a], sets', tree')
  {
  }

  /**
   * The greedy rule as a definition: the tree obtained by taking the arcs of
   * `order` one after another and accepting each whose ends the arcs accepted
   * before it do not link yet.
   */
  ghost function Accepted(g: Graph, order: seq<ArcId>): set<ArcId>
    decreases |order|
  {
    if order == [] then {}
    else
      var t := Accepted(g, Init(order));
      var a := Last(order);
      if a < |g.arcs| && !Linked(g, t, g.arcs[a].start, g.arcs[a].finish) then t + {a} else t
  }

  /** One more arc in the order: it joins the greedy tree exactly when its ends are not linked yet. */
  lemma AcceptedStep(g: Graph, order: seq<ArcId>, a: ArcId)
    requires a < |g.arcs|
    ensures !Linked(g, Accepted(g, order), g.arcs[a].start, g.arcs[a].finish) ==>
              Accepted(g, order + [a]) == Accepted(g, order) + {a}
    ensures Linked(g, Accepted(g, order), g.arcs[a].start, g.arcs[a].finish) ==>
              Accepted(g, order + [a]) == Accepted(g, order)
  {
    assert Init(order + [a]) == order && Last(order + [a]) == a;
  }

  /**
   * One turn of the `while (!queue.isEmpty())` loop: dequeue an arc of least
   * cost and consider it. The dequeued arc goes to the end of `order`; it is
   * accepted, merging the sets of its ends, exactly when the tree does not
   * link its ends yet, and otherwise nothing changes. All three invariants
   * are kept.
   */
  method Turn(g: Graph, queue: seq<Entry<ArcId>>, sets: seq<set<NodeId>>, tree: set<ArcId>,
              ghost order: seq<ArcId>)
    returns (queue': seq<Entry<ArcId>>, sets': seq<set<NodeId>>, tree': set<ArcId>,
             ghost order': seq<ArcId>, ghost k: nat)
    requires g.Valid() && |queue| > 0
    requires Scheduled(g, order, queue) && Forest(g, sets, tree) && Processed(g, order, sets, tree)
    ensures IsMinAt(queue, k) && queue' == RemoveAt(queue, k) && order' == order + [queue[k].item]
    ensures queue[k].item < |g.arcs|
    ensures LastIn(sets, g.arcs[queue[k].item].start) < |sets| && LastIn(sets, g.arcs[queue[k].item].finish) < |sets|
    ensures Linked(g, tree, g.arcs[queue[k].item].start, g.arcs[queue[k].item].finish) ==>
              sets' == sets && tree' == tree
    ensures !Linked(g, tree, g.arcs[queue[k].item].start, g.arcs[queue[k].item].finish) ==>
              LastIn(sets, g.arcs[queue[k].item].start) != LastIn(sets, g.arcs[queue[k].item].finish) &&
              tree' == tree + {queue[k].item} &&
              sets' == Merge(sets, LastIn(sets, g.arcs[queue[k].item].start), LastIn(sets, g.arcs[queue[k].item].finish))
    ensures Scheduled(g, order', queue') && Forest(g, sets', tree') && Processed(g, order', sets', tree')
  {
    var entry;
    entry, queue', k := Dequeue(queue);
    DequeueScheduled(g, order, queue, k);
    var arc := entry.item;
    assert arc !in order;
    sets', tree' := Consider(g, sets, tree, arc);
    assert tree' <= tree + {arc};
    ProcessedStep(g, order, sets, tree, sets', tree', arc);
    order' := order + [arc];
  }

  /**
   * Kruskal's loop over the graph's arcs. The result `tree` is the set of
   * accepted arcs. `order` is the order in which the arcs were dequeued: each
   * arc exactly once, in non-decreasing cost order. `components` is the final
   * partition: every node in exactly one set, two nodes in one set exactly
   * when the tree links them, and as many tree arcs as nodes less sets, so
   * the tree is a forest. Every arc of the graph has its two ends linked by
   * the tree, so the tree spans each connected part of the graph.
   */
  method Kruskal(g: Graph)
    returns (tree: set<ArcId>, ghost order: seq<ArcId>, ghost components: seq<set<NodeId>>)
    requires g.Valid()
    ensures forall a :: a in tree ==> a < |g.arcs|
    ensures forall i :: 0 <= i < |order| ==> order[i] < |g.arcs|
    ensures |order| == |g.arcs| && forall a :: 0 <= a < |g.arcs| ==> a in order
    ensures forall i, j :: 0 <= i < j < |order| ==> order[i] != order[j]
    ensures forall i, j :: 0 <= i < j < |order| ==> g.arcs[order[i]].cost <= g.arcs[order[j]].cost
    ensures tree == Accepted(g, order)
    ensures Partition(components, g.N()) && |tree| + |components| == g.N()
    ensures forall u, v :: 0 <= u < g.N() ==> (Linked(g, tree, u, v) <==> SameSet(components, u, v))
    ensures forall a :: 0 <= a < |g.arcs| ==> Linked(g, tree, g.arcs[a].start, g.arcs[a].finish)
    ensures forall u, v :: Linked(g, AllArcs(g), u, v) ==> Linked(g, tree, u, v)
  {
    var queue := EnqueueArcs(g);
    var connectedNodeSet := Singletons(g.N());
    tree := {};
    order := [];
    InitialScheduled(g, queue);
    SingletonsForest(g, connectedNodeSet);

    while |queue| > 0
      invariant Scheduled(g, order, queue)
      invariant Forest(g, connectedNodeSet, tree)
      invariant Processed(g, order, connectedNodeSet, tree)
      invariant tree == Accepted(g, order)
      decreases |queue|
    {
      ghost var before, waiting, k := order, queue, 0;
      queue, connectedNodeSet, tree, order, k := Turn(g, queue, connectedNodeSet, tree, order);
      AcceptedStep(g, before, waiting[k].item);
    }
    components := connectedNodeSet;
    forall u, v | 0 <= u < g.N() ensures Linked(g, tree, u, v) <==> SameSet(components, u, v) {
      ForestLinked(g, components, tree, u, v);
    }
    forall a | 0 <= a < |g.arcs| ensures Linked(g, tree, g.arcs[a].start, g.arcs[a].finish) {
      assert a in order;
      ForestLinked(g, components, tree, g.arcs[a].start, g.arcs[a].finish);
    }
    forall u, v | Linked(g, AllArcs(g), u, v) ensures Linked(g, tree, u, v) {
      var p :| Chain(g, AllArcs(g), p) && p[0] == u && p[|p| - 1] == v;
      Spans(g, tree, p);
    }
  }

  /**
   * The loader stores each input edge as two arcs, the second the reverse of
   * the first. Once either of them is in the tree, both have their ends in one
   * set, so the scan finds the same index for both ends and the twin is
   * rejected when it is dequeued.
   */
  lemma TwinRejected(g: Graph, sets: seq<set<NodeId>>, tree: set<ArcId>, k: nat)
    requires g.Valid() && g.Reciprocal() && Forest(g, sets, tree)
    requires k < |g.arcs| / 2 && (2 * k in tree || 2 * k + 1 in tree)
    ensures Linked(g, tree, g.arcs[2 * k].start, g.arcs[2 * k].finish)
    ensures Linked(g, tree, g.arcs[2 * k + 1].start, g.arcs[2 * k + 1].finish)
    ensures LastIn(sets, g.arcs[2 * k + 1].start) == LastIn(sets, g.arcs[2 * k + 1].finish)
    ensures LastIn(sets, g.arcs[2 * k].start) == LastIn(sets, g.arcs[2 * k].finish)
  {
    var s, f := g.arcs[2 * k].start, g.arcs[2 * k].finish;
    assert g.arcs[2 * k + 1] == Arc(f, s, g.arcs[2 * k].cost);
    var a := if 2 * k in tree then 2 * k else 2 * k + 1;
    assert SameSet(sets, g.arcs[a].start, g.arcs[a].finish);
    assert SameSet(sets, s, f) && SameSet(sets, f, s);
    LocateSame(sets, g.N(), s, f);
    LocateSame(sets, g.N(), f, s);
    ForestLinked(g, sets, tree, s, f);
    ForestLinked(g, sets, tree, f, s);
  }
}
