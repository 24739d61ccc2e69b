/**
 * The computing parts of cmd/main.go: the sample graph, the walk back along
 * the final predecessor map (`reconstructPath`) and the reachable /
 * unreachable decision of `printResults`.
 */
module Cmd {
  import opened Graphs
  import opened Algorithm
  import opened Guarantees

  // ---------------------------------------------------------------------
  // reconstructPath, as written

  /** Where `reconstructPath` stops: no entry in `prev`, or the empty string as entry. */
  predicate IsRoot(prev: map<string, string>, v: string)
  {
    v !in prev || prev[v] == ""
  }

  /** Following `prev` from `v` meets a vertex where `reconstructPath` stops within `n` hops. */
  ghost predicate StopsWithin(prev: map<string, string>, v: string, n: nat)
    decreases n
  {
    IsRoot(prev, v) || (n > 0 && StopsWithin(prev, prev[v], n - 1))
  }

  /**
   * A path as `reconstructPath` builds it (before joining it with " → "):
   * it ends at `v`, it begins where the walk back stops, each element is the
   * recorded predecessor of the next, and no later element stops the walk.
   */
  ghost predicate IsBackPath(prev: map<string, string>, v: string, path: seq<string>)
  {
    && |path| > 0 && path[|path| - 1] == v
    && IsRoot(prev, path[0])
    && (forall k :: 0 < k < |path| ==> !IsRoot(prev, path[k]) && prev[path[k]] == path[k - 1])
  }

  /**
   * `reconstructPath`: prepend predecessors until a vertex without one. The
   * loop only ends when the chain from `vertex` reaches such a vertex.
   */
  method ReconstructPath(vertex: string, previous: map<string, string>) returns (path: seq<string>)
    requires exists n :: StopsWithin(previous, vertex, n)
    ensures IsBackPath(previous, vertex, path)
    ensures IsRoot(previous, vertex) ==> path == [vertex]
  {
    ghost var n :| StopsWithin(previous, vertex, n);
    path := [vertex];
    var current := vertex;
    while current in previous && previous[current] != ""
      invariant |path| > 0 && path[0] == current && path[|path| - 1] == vertex
      invariant IsRoot(previous, vertex) ==> path == [vertex]
      invariant StopsWithin(previous, current, n)
      invariant forall k :: 0 < k < |path| ==> !IsRoot(previous, path[k]) && previous[path[k]] == path[k - 1]
      decreases n
    {
      var prev := previous[current];
      path := [prev] + path;
      current := prev;
      n := n - 1;
    }
  }

  /** The path is determined by `prev` and `v`: at most one sequence is a back path. */
  lemma {:induction false} BackPathUnique(prev: map<string, string>, v: string, p1: seq<string>, p2: seq<string>)
    requires IsBackPath(prev, v, p1) && IsBackPath(prev, v, p2)
    ensures p1 == p2
    decreases |p1|
  {
    var n1, n2 := |p1|, |p2|;
    if n1 > 1 && n2 > 1 {
      var u := prev[v];
      assert IsBackPath(prev, u, p1[..n1 - 1]);
      assert IsBackPath(prev, u, p2[..n2 - 1]);
      BackPathUnique(prev, u, p1[..n1 - 1], p2[..n2 - 1]);
      assert p1 == p1[..n1 - 1] + [v];
      assert p2 == p2[..n2 - 1] + [v];
    }
  }

  // ---------------------------------------------------------------------
  // reconstructPath, stopping only where there is no entry

  /** The path when only a missing entry ends the walk back. */
  ghost predicate IsChainPath(prev: map<string, string>, v: string, path: seq<string>)
  {
    && |path| > 0 && path[|path| - 1] == v
    && path[0] !in prev
    && (forall k :: 0 < k < |path| ==> path[k] in prev && prev[path[k]] == path[k - 1])
  }

  /** `reconstructPath` with the stop test `!exists` alone, so a vertex named "" is followed too. */
  method PredecessorPath(vertex: string, previous: map<string, string>) returns (path: seq<string>)
    requires exists n :: ChainEnds(previous, vertex, n)
    ensures IsChainPath(previous, vertex, path)
    ensures vertex !in previous ==> path == [vertex]
  {
    ghost var n :| ChainEnds(previous, vertex, n);
    path := [vertex];
    var current := vertex;
    while current in previous
      invariant |path| > 0 && path[0] == current && path[|path| - 1] == vertex
      invariant vertex !in previous ==> path == [vertex]
      invariant ChainEnds(previous, current, n)
      invariant forall k :: 0 < k < |path| ==> path[k] in previous && previous[path[k]] == path[k - 1]
      decreases n
    {
      var prev := previous[current];
      path := [prev] + path;
      current := prev;
      n := n - 1;
    }
  }

  /** At most one sequence is a chain path. */
  lemma {:induction false} ChainPathUnique(prev: map<string, string>, v: string, p1: seq<string>, p2: seq<string>)
    requires IsChainPath(prev, v, p1) && IsChainPath(prev, v, p2)
    ensures p1 == p2
    decreases |p1|
  {
    var n1, n2 := |p1|, |p2|;
    if n1 > 1 && n2 > 1 {
      var u := prev[v];
      assert IsChainPath(prev, u, p1[..n1 - 1]);
      assert IsChainPath(prev, u, p2[..n2 - 1]);
      ChainPathUnique(prev, u, p1[..n1 - 1], p2[..n2 - 1]);
      assert p1 == p1[..n1 - 1] + [v];
      assert p2 == p2[..n2 - 1] + [v];
    }
  }

  /** A chain that ends within `n` hops also stops the original loop within `n` hops. */
  lemma {:induction false} ChainEndsStops(prev: map<string, string>, v: string, n: nat)
    requires ChainEnds(prev, v, n)
    ensures StopsWithin(prev, v, n)
    decreases n
  {
    if !IsRoot(prev, v) {
      ChainEndsStops(prev, prev[v], n - 1);
    }
  }

  /** The hops along `path`, each weighing the difference of the distances of its ends. */
  ghost function PathHops(d: map<string, int>, path: seq<string>): seq<Hop>
    requires forall k :: 0 <= k < |path| ==> path[k] in d
    decreases |path|
  {
    if |path| <= 1 then []
    else
      var n := |path|;
      PathHops(d, path[..n - 1]) + [Hop(path[n - 2], path[n - 1], d[path[n - 1]] - d[path[n - 2]])]
  }

  /**
   * A chain path to a reached vertex over predecessor maps the engine keeps
   * starts at `start`, consists of reached vertices, and its hops are
   * half-edges of the graph whose weights sum to the distance of its end.
   */
  lemma {:induction false} ChainPathWalk(adj: Adjacency, start: string, d: map<string, int>, prev: map<string, string>,
                                         path: seq<string>)
    requires NonNegative(adj) && start in d && d[start] == 0
    requires PredEdges(adj, d, prev) && PredTotal(start, d, prev)
    requires |path| > 0 && IsChainPath(prev, path[|path| - 1], path) && Reached(d, path[|path| - 1])
    ensures forall k :: 0 <= k < |path| ==> Reached(d, path[k])
    ensures path[0] == start
    ensures IsWalk(adj, start, path[|path| - 1], PathHops(d, path))
    ensures WalkWeight(PathHops(d, path)) == d[path[|path| - 1]]
    decreases |path|
  {
    var n := |path|;
    var v := path[n - 1];
    if n == 1 {
      assert !(Reached(d, v) && v != start);
    } else {
      var p := prev[v];
      assert p == path[n - 2];
      assert PredecessorEdge(adj, d, prev, v);
      var w := d[v] - d[p];
      assert p in adj && Edge(v, w) in adj[p];
      var front := path[..n - 1];
      assert IsChainPath(prev, p, front);
      ChainPathWalk(adj, start, d, prev, front);
      WalkAppend(adj, start, p, PathHops(d, front), v, w);
    }
  }

  /**
   * Round trip with the engine: on the final snapshot, the corrected path to
   * a reached vertex runs from `start` along half-edges of the graph whose
   * weights sum to the vertex's distance.
   */
  lemma PathRoundTrip(adj: Adjacency, start: string, s: Step, v: string, path: seq<string>)
    requires NonNegative(adj) && IsFinal(adj, start, s)
    requires v in s.distances && s.distances[v] < MaxInt32
    requires IsChainPath(s.previousVertex, v, path)
    ensures path[0] == start
    ensures forall k :: 0 <= k < |path| ==> path[k] in s.distances && s.distances[path[k]] < MaxInt32
    ensures IsWalk(adj, start, v, PathHops(s.distances, path))
    ensures WalkWeight(PathHops(s.distances, path)) == s.distances[v]
  {
    assert PredEdges(adj, s.distances, s.previousVertex);
    ChainPathWalk(adj, start, s.distances, s.previousVertex, path);
  }

  /** Without a vertex named "", the two stop tests agree and `reconstructPath` yields the chain path. */
  lemma BackPathIsChainPath(prev: map<string, string>, d: map<string, int>, v: string, path: seq<string>)
    requires forall x :: x in prev ==> prev[x] in d
    requires "" !in d && IsBackPath(prev, v, path)
    ensures IsChainPath(prev, v, path)
  {
  }

  /**
   * Round trip of `reconstructPath` as written, on a graph without a vertex
   * named "": from `start` along half-edges summing to the distance of `v`.
   */
  lemma ReconstructRoundTrip(adj: Adjacency, start: string, s: Step, v: string, path: seq<string>)
    requires NonNegative(adj) && IsFinal(adj, start, s) && "" !in adj && start != ""
    requires v in s.distances && s.distances[v] < MaxInt32
    requires IsBackPath(s.previousVertex, v, path)
    ensures path[0] == start
    ensures IsWalk(adj, start, v, PathHops(s.distances, path))
    ensures WalkWeight(PathHops(s.distances, path)) == s.distances[v]
  {
    assert forall x :: x in s.previousVertex ==> PredecessorEdge(adj, s.distances, s.previousVertex, x);
    BackPathIsChainPath(s.previousVertex, s.distances, v, path);
    PathRoundTrip(adj, start, s, v, path);
  }

  // ---------------------------------------------------------------------
  // A vertex named ""

  /** A -1- "" -1- B: the middle vertex has the name Go uses for "no predecessor". */
  function EmptyNameAdjacency(): Adjacency
  {
    map["A" := [Edge("", 1)], "" := [Edge("A", 1), Edge("B", 1)], "B" := [Edge("", 1)]]
  }

  function EmptyNameDistances(): map<string, int>
  {
    map["A" := 0, "" := 1, "B" := 2]
  }

  function EmptyNameWalks(): map<string, seq<Hop>>
  {
    map["A" := [], "" := [Hop("A", "", 1)], "B" := [Hop("A", "", 1), Hop("", "B", 1)]]
  }

  lemma EmptyNameFeasible()
    ensures NonNegative(EmptyNameAdjacency()) && Feasible(EmptyNameAdjacency(), EmptyNameDistances())
  {
    var adj, p := EmptyNameAdjacency(), EmptyNameDistances();
    forall u: string, e: Edge | u in adj && e in adj[u]
      ensures e.weight >= 0 && u in p && e.to in p && p[e.to] <= p[u] + e.weight
    {
      if u == "A" {
      } else if u == "" {
      } else {
        assert u == "B";
      }
    }
  }

  lemma EmptyNameWalksAttain()
    ensures WalksAttain(EmptyNameAdjacency(), "A", EmptyNameDistances(), EmptyNameWalks())
  {
    var adj, walks := EmptyNameAdjacency(), EmptyNameWalks();
    assert IsWalk(adj, "A", "A", walks["A"]);
    assert IsWalk(adj, "A", "", walks[""]);
    assert IsWalk(adj, "A", "B", walks["B"]);
  }

  lemma EmptyNameAttained()
    ensures Attained(EmptyNameAdjacency(), "A", EmptyNameDistances(), EmptyNameWalks())
  {
    var adj, e := EmptyNameAdjacency(), EmptyNameDistances();
    EmptyNameFeasible();
    EmptyNameWalksAttain();
    assert e.Keys == adj.Keys + {"A"};
  }

  /** The distances of every run on that graph from A. */
  lemma EmptyNameDistancesAre(s: Step)
    requires IsFinal(EmptyNameAdjacency(), "A", s)
    ensures s.distances == EmptyNameDistances()
  {
    EmptyNameAttained();
    FinalDistancesAre(EmptyNameAdjacency(), "A", s, EmptyNameDistances(), EmptyNameWalks());
  }

  /** Which predecessor entries the distances allow. */
  lemma EmptyNamePredecessor(s: Step, x: string)
    requires IsFinal(EmptyNameAdjacency(), "A", s) && s.distances == EmptyNameDistances()
    requires x in s.previousVertex
    ensures (x == "" && s.previousVertex[x] == "A") || (x == "B" && s.previousVertex[x] == "")
  {
    assert PredecessorEdge(EmptyNameAdjacency(), s.distances, s.previousVertex, x);
  }

  lemma EmptyNamePredecessorMap(prev: map<string, string>)
    requires "" in prev && "B" in prev
    requires forall x :: x in prev ==> (x == "" && prev[x] == "A") || (x == "B" && prev[x] == "")
    ensures prev == map["" := "A", "B" := ""]
  {
  }

  /** The final predecessors of every run on that graph from A. */
  lemma EmptyNameFinal(s: Step)
    requires IsFinal(EmptyNameAdjacency(), "A", s)
    ensures s.distances == EmptyNameDistances()
    ensures s.previousVertex == map["" := "A", "B" := ""]
  {
    EmptyNameDistancesAre(s);
    var prev := s.previousVertex;
    assert Reached(s.distances, "") && Reached(s.distances, "B");
    forall x | x in prev
      ensures (x == "" && prev[x] == "A") || (x == "B" && prev[x] == "")
    {
      EmptyNamePredecessor(s, x);
    }
    EmptyNamePredecessorMap(prev);
  }

  /** As written, the path to B stops at the vertex named "" and omits A and "". */
  lemma EmptyNameCutsPath(s: Step, path: seq<string>)
    requires IsFinal(EmptyNameAdjacency(), "A", s)
    requires IsBackPath(s.previousVertex, "B", path)
    ensures s.distances["B"] == 2 && path == ["B"]
  {
    EmptyNameFinal(s);
    assert IsBackPath(s.previousVertex, "B", ["B"]);
    BackPathUnique(s.previousVertex, "B", path, ["B"]);
  }

  /** The corrected path to B runs from A through "" (and weighs 2, by `PathRoundTrip`). */
  lemma EmptyNameFullPath(s: Step, path: seq<string>)
    requires IsFinal(EmptyNameAdjacency(), "A", s)
    requires IsChainPath(s.previousVertex, "B", path)
    ensures path == ["A", "", "B"]
  {
    EmptyNameFinal(s);
    var full := ["A", "", "B"];
    assert IsChainPath(s.previousVertex, "B", full);
    ChainPathUnique(s.previousVertex, "B", path, full);
  }

  // ---------------------------------------------------------------------
  // The final distances of a concrete graph

  /**
   * `e` is a feasible labelling of the vertices of `adj` and `start`, zero at
   * `start`, and `walks` holds for each vertex a walk from `start` weighing
   * its label.
   */
  ghost predicate Attained(adj: Adjacency, start: string, e: map<string, int>, walks: map<string, seq<Hop>>)
  {
    && NonNegative(adj)
    && e.Keys == adj.Keys + {start} && e[start] == 0 && Feasible(adj, e)
    && WalksAttain(adj, start, e, walks)
  }

  /** `walks` holds for each vertex labelled in `e` a walk from `start` weighing its label. */
  ghost predicate WalksAttain(adj: Adjacency, start: string, e: map<string, int>, walks: map<string, seq<Hop>>)
  {
    forall v :: v in e ==> e[v] < MaxInt32 && v in walks && IsWalk(adj, start, v, walks[v]) && WalkWeight(walks[v]) == e[v]
  }

  lemma AttainedFrom(adj: Adjacency, start: string, e: map<string, int>, walks: map<string, seq<Hop>>)
    requires NonNegative(adj) && Feasible(adj, e)
    requires e.Keys == adj.Keys + {start} && e[start] == 0
    requires WalksAttain(adj, start, e, walks)
    ensures Attained(adj, start, e, walks)
  {
  }

  /** An attained feasible labelling is exactly the final distance map. */
  lemma FinalDistancesAre(adj: Adjacency, start: string, s: Step, e: map<string, int>, walks: map<string, seq<Hop>>)
    requires IsFinal(adj, start, s) && Attained(adj, start, e, walks)
    ensures s.distances == e
  {
    var d, prev := s.distances, s.previousVertex;
    forall v | v in e
      ensures d[v] == e[v]
    {
      ShortestBound(adj, start, s, v, walks[v]);
      var n :| ChainEnds(prev, v, n);
      assert PredEdges(adj, d, prev);
      var hops := PredecessorWalk(adj, start, d, prev, v, n);
      FeasibleBoundsWalk(adj, e, start, v, hops);
    }
  }

  // ---------------------------------------------------------------------
  // createSampleGraph and its run from A

  /** The adjacency lists `createSampleGraph` builds, in the order of its nine `AddEdge` calls. */
  ghost predicate IsSample(adj: Adjacency)
  {
    && adj.Keys == {"A", "B", "C", "D", "E", "F"}
    && adj["A"] == [Edge("B", 7), Edge("C", 9), Edge("F", 14)]
    && adj["B"] == [Edge("A", 7), Edge("C", 10), Edge("D", 15)]
    && adj["C"] == [Edge("A", 9), Edge("B", 10), Edge("D", 11), Edge("F", 2)]
    && adj["D"] == [Edge("B", 15), Edge("C", 11), Edge("E", 6)]
    && adj["E"] == [Edge("D", 6), Edge("F", 9)]
    && adj["F"] == [Edge("A", 14), Edge("C", 2), Edge("E", 9)]
  }

  function SampleDistances(): map<string, int>
  {
    map["A" := 0, "B" := 7, "C" := 9, "D" := 20, "E" := 20, "F" := 11]
  }

  /** The nine `AddEdge` calls of `createSampleGraph`, in order. */
  function SampleCalls(): Calls
  {
    AddEdgeCall("A", "B", 7, AddEdgeCall("A", "C", 9, AddEdgeCall("A", "F", 14,
    AddEdgeCall("B", "C", 10, AddEdgeCall("B", "D", 15, AddEdgeCall("C", "D", 11,
    AddEdgeCall("C", "F", 2, AddEdgeCall("D", "E", 6, AddEdgeCall("E", "F", 9, Done)))))))))
  }

  /** `createSampleGraph`: a fresh graph and the nine `AddEdge` calls. */
  method CreateSampleGraph() returns (g: Graph)
    ensures fresh(g) && g.Valid() && g.vertices == AddAll(map[], SampleCalls())
  {
    g := new Graph();
    g.AddEdge("A", "B", 7);
    g.AddEdge("A", "C", 9);
    g.AddEdge("A", "F", 14);
    g.AddEdge("B", "C", 10);
    g.AddEdge("B", "D", 15);
    g.AddEdge("C", "D", 11);
    g.AddEdge("C", "F", 2);
    g.AddEdge("D", "E", 6);
    g.AddEdge("E", "F", 9);
  }

  lemma SampleAppendedA()
    ensures Appended(SampleCalls(), "A") == [Edge("B", 7), Edge("C", 9), Edge("F", 14)]
  {
  }

  lemma SampleAppendedB()
    ensures Appended(SampleCalls(), "B") == [Edge("A", 7), Edge("C", 10), Edge("D", 15)]
  {
  }

  lemma SampleAppendedC()
    ensures Appended(SampleCalls(), "C") == [Edge("A", 9), Edge("B", 10), Edge("D", 11), Edge("F", 2)]
  {
  }

  lemma SampleAppendedD()
    ensures Appended(SampleCalls(), "D") == [Edge("B", 15), Edge("C", 11), Edge("E", 6)]
  {
  }

  lemma SampleAppendedE()
    ensures Appended(SampleCalls(), "E") == [Edge("D", 6), Edge("F", 9)]
  {
  }

  lemma SampleAppendedF()
    ensures Appended(SampleCalls(), "F") == [Edge("A", 14), Edge("C", 2), Edge("E", 9)]
  {
  }

  lemma SampleEnds()
    ensures Ends(SampleCalls()) == {"A", "B", "C", "D", "E", "F"}
  {
  }

  /** The adjacency list of `v` after the nine calls is what they appended for `v`. */
  lemma SampleList(adj: Adjacency, v: string)
    requires adj == AddAll(map[], SampleCalls()) && v in adj
    ensures adj[v] == Appended(SampleCalls(), v)
  {
    AddAllNeighbors(map[], SampleCalls(), v);
  }

  /** The graph `createSampleGraph` builds has exactly the lists of the six vertices above. */
  lemma SampleShape(adj: Adjacency)
    requires adj == AddAll(map[], SampleCalls())
    ensures IsSample(adj)
  {
    SampleEnds();
    AddAllKeys(map[], SampleCalls());
    SampleList(adj, "A");
    SampleAppendedA();
    SampleList(adj, "B");
    SampleAppendedB();
    SampleList(adj, "C");
    SampleAppendedC();
    SampleList(adj, "D");
    SampleAppendedD();
    SampleList(adj, "E");
    SampleAppendedE();
    SampleList(adj, "F");
    SampleAppendedF();
  }

  /** Walks of the sample graph from A attaining the expected distances. */
  function SampleWalks(): map<string, seq<Hop>>
  {
    map[
      "A" := [],
      "B" := [Hop("A", "B", 7)],
      "C" := [Hop("A", "C", 9)],
      "D" := [Hop("A", "C", 9), Hop("C", "D", 11)],
      "E" := [Hop("A", "C", 9), Hop("C", "F", 2), Hop("F", "E", 9)],
      "F" := [Hop("A", "C", 9), Hop("C", "F", 2)]]
  }

  lemma SampleFeasible(adj: Adjacency)
    requires IsSample(adj)
    ensures NonNegative(adj) && Feasible(adj, SampleDistances())
  {
    var p := SampleDistances();
    forall u | u in adj
      ensures forall e: Edge :: e in adj[u] ==> e.weight >= 0 && u in p && e.to in p && p[e.to] <= p[u] + e.weight
    {
      var es := adj[u];
      forall i | 0 <= i < |es|
        ensures es[i].weight >= 0 && u in p && es[i].to in p && p[es[i].to] <= p[u] + es[i].weight
      {
        if u == "A" {
        } else if u == "B" {
        } else if u == "C" {
        } else if u == "D" {
        } else if u == "E" {
        } else {
        }
      }
    }
  }

  lemma SampleWalksAttain(adj: Adjacency)
    requires IsSample(adj)
    ensures WalksAttain(adj, "A", SampleDistances(), SampleWalks())
  {
    var walks := SampleWalks();
    assert IsWalk(adj, "A", "A", walks["A"]);
    assert IsWalk(adj, "A", "B", walks["B"]);
    assert IsWalk(adj, "A", "C", walks["C"]);
    assert IsWalk(adj, "A", "D", walks["D"]);
    assert IsWalk(adj, "A", "E", walks["E"]);
    assert IsWalk(adj, "A", "F", walks["F"]);
  }

  lemma SampleAttained(adj: Adjacency)
    requires IsSample(adj)
    ensures Attained(adj, "A", SampleDistances(), SampleWalks())
  {
    SampleFeasible(adj);
    SampleWalksAttain(adj);
    SampleKeys(adj.Keys);
    AttainedFrom(adj, "A", SampleDistances(), SampleWalks());
  }

  lemma SampleKeys(keys: set<string>)
    requires keys == {"A", "B", "C", "D", "E", "F"}
    ensures SampleDistances().Keys == keys + {"A"} && SampleDistances()["A"] == 0
  {
  }

  /** The labels of `SampleDistances`, one lookup each. */
  lemma SampleLabels()
    ensures var e := SampleDistances();
      && "A" in e && "B" in e && "C" in e && "D" in e && "E" in e && "F" in e
      && e["A"] == 0 && e["B"] == 7 && e["C"] == 9 && e["D"] == 20 && e["E"] == 20 && e["F"] == 11
  {
  }

  /** On a final snapshot a reached vertex other than `start` has a predecessor edge. */
  lemma FinalPredecessor(adj: Adjacency, start: string, s: Step, v: string)
    requires IsFinal(adj, start, s) && Reached(s.distances, v) && v != start
    ensures v in s.previousVertex && PredecessorEdge(adj, s.distances, s.previousVertex, v)
  {
  }

  /** In the sample graph only A has an edge to C and only C an edge to F that the labels make tight. */
  lemma SampleTightEdge(adj: Adjacency, p: string, x: string, w: int)
    requires IsSample(adj) && p in SampleDistances() && (x == "C" || x == "F")
    requires Edge(x, w) in Neighbors(adj, p) && w == SampleDistances()[x] - SampleDistances()[p]
    ensures p == (if x == "C" then "A" else "C")
  {
    SampleLabels();
    if p == "A" {
    } else if p == "B" {
    } else if p == "C" {
    } else if p == "D" {
    } else if p == "E" {
    } else {
    }
  }

  /** Only C can precede F, and only A can precede C, at the sample's distances. */
  lemma SamplePredecessor(adj: Adjacency, s: Step, x: string)
    requires IsSample(adj) && IsFinal(adj, "A", s) && s.distances == SampleDistances()
    requires x == "C" || x == "F"
    ensures x in s.previousVertex && s.previousVertex[x] == (if x == "C" then "A" else "C")
  {
    SampleLabels();
    FinalPredecessor(adj, "A", s, x);
    var p := s.previousVertex[x];
    SampleTightEdge(adj, p, x, s.distances[x] - s.distances[p]);
  }

  /**
   * Every run from A on the sample graph ends with the distances A:0, B:7,
   * C:9, D:20, E:20, F:11, and reaches F through C from A.
   */
  lemma SampleFinal(adj: Adjacency, s: Step)
    requires IsSample(adj) && IsFinal(adj, "A", s)
    ensures s.distances == SampleDistances()
    ensures "F" in s.previousVertex && s.previousVertex["F"] == "C"
    ensures "C" in s.previousVertex && s.previousVertex["C"] == "A"
    ensures "A" !in s.previousVertex
  {
    SampleAttained(adj);
    FinalDistancesAre(adj, "A", s, SampleDistances(), SampleWalks());
    SamplePredecessor(adj, s, "F");
    SamplePredecessor(adj, s, "C");
  }

  /** With F preceded by C, and C by A, the back path to F is A, C, F. */
  lemma SamplePathToF(prev: map<string, string>)
    requires "F" in prev && prev["F"] == "C" && "C" in prev && prev["C"] == "A" && "A" !in prev
    ensures IsBackPath(prev, "F", ["A", "C", "F"]) && StopsWithin(prev, "F", 2)
  {
    assert StopsWithin(prev, "A", 0);
  }

  /**
   * `main` up to the results: build the sample graph, run the engine from A
   * and reconstruct the path to F.
   */
  method RunSample() returns (g: Graph, steps: seq<Step>, pathToF: seq<string>)
    ensures g.Valid() && IsSample(g.vertices) && Trace(g.vertices, "A", steps)
    ensures Last(steps).event == Complete && Last(steps).distances == SampleDistances()
    ensures pathToF == ["A", "C", "F"]
  {
    g := CreateSampleGraph();
    ghost var adj := g.vertices;
    SampleShape(adj);
    SampleFeasible(adj);
    steps := Dijkstra(g, "A");
    var final := Last(steps);
    SampleFinal(adj, final);
    var prev := final.previousVertex;
    SamplePathToF(prev);
    pathToF := ReconstructPath("F", prev);
    BackPathUnique(prev, "F", pathToF, ["A", "C", "F"]);
  }

  // ---------------------------------------------------------------------
  // printResults

  /** One entry of the final report. */
  datatype ReportLine = NoPath(vertex: string) | ShortestPath(vertex: string, distance: int, path: seq<string>)

  /** The decision of `printResults` for one vertex: UNREACHABLE at `MaxInt32`, else distance and path. */
  method Report(s: Step, v: string) returns (line: ReportLine)
    requires v in s.distances
    requires s.distances[v] != MaxInt32 ==> exists n :: StopsWithin(s.previousVertex, v, n)
    ensures line.vertex == v
    ensures line.NoPath? <==> s.distances[v] == MaxInt32
    ensures line.ShortestPath? ==> line.distance == s.distances[v] && IsBackPath(s.previousVertex, v, line.path)
  {
    var dist := s.distances[v];
    if dist == MaxInt32 {
      line := NoPath(v);
    } else {
      var path := ReconstructPath(v, s.previousVertex);
      line := ShortestPath(v, dist, path);
    }
  }

  /** On a final snapshot every vertex has a report, as its predecessor chain ends. */
  lemma ReportDefined(adj: Adjacency, start: string, s: Step, v: string)
    requires IsFinal(adj, start, s) && v in s.distances
    ensures exists n :: StopsWithin(s.previousVertex, v, n)
  {
    var n :| ChainEnds(s.previousVertex, v, n);
    ChainEndsStops(s.previousVertex, v, n);
  }

  /**
   * UNREACHABLE is printed exactly for the vertices to which every walk from
   * `start` weighs at least `MaxInt32` (in particular, those with no walk).
   */
  lemma UnreachableIffNoWalk(adj: Adjacency, start: string, s: Step, v: string)
    requires NonNegative(adj) && IsFinal(adj, start, s) && v in s.distances
    ensures s.distances[v] == MaxInt32 <==> forall hops :: IsWalk(adj, start, v, hops) ==> WalkWeight(hops) >= MaxInt32
  {
    ShortestPaths(adj, start, s, v);
  }
}
