/**
 * What the snapshots returned by `Dijkstra` (internal/algorithm/dijkstra.go)
 * guarantee: facts about every trace of the algorithm, and the optimality of
 * the final distances and predecessors.
 */
module Guarantees {
  import opened Wrappers
  import opened Graphs
  import opened Algorithm

  // ---------------------------------------------------------------------
  // One transition

  lemma TraceStep(adj: Adjacency, start: string, steps: seq<Step>, j: nat)
    requires Trace(adj, start, steps) && 0 < j < |steps|
    ensures Transition(adj, steps[j - 1], steps[j])
  {
  }

  /** An `Updated(u)` snapshot lowers the distance of the unvisited `u` and changes nothing else but the explorations. */
  lemma UpdateChanges(adj: Adjacency, s: Step, t: Step, u: string)
    requires Transition(adj, s, t) && t.event == Updated(u)
    ensures u in s.distances && !IsVisited(s.visited, u) && t.visited == s.visited
    ensures t.distances.Keys == s.distances.Keys && t.distances[u] < s.distances[u]
    ensures forall x :: x in s.distances && x != u ==> t.distances[x] == s.distances[x]
  {
    var cur := t.currentVertex;
    var edges := Neighbors(adj, cur);
    var j :| 0 < j <= |edges| && RelaxedUpTo(adj, s.distances, cur, j - 1) && UpdatedBy(s, t, cur, u, edges[..j]);
    UpdatedByLowers(s, t, cur, u, edges[..j]);
  }

  lemma UpdatedByLowers(s: Step, t: Step, cur: string, u: string, scanned: seq<Edge>)
    requires cur in s.distances && u in s.distances && UpdatedBy(s, t, cur, u, scanned)
    ensures var w := scanned[|scanned| - 1].weight;
      t.distances == s.distances[u := s.distances[cur] + w] && s.distances[cur] + w < s.distances[u]
  {
  }

  /** What a single transition keeps: visited marks, and distances that never grow nor change once visited. */
  lemma TransitionKeeps(adj: Adjacency, s: Step, t: Step, v: string)
    requires Transition(adj, s, t)
    ensures IsVisited(s.visited, v) ==> IsVisited(t.visited, v)
    ensures v in s.distances ==> v in t.distances && t.distances[v] <= s.distances[v]
    ensures v in s.distances && IsVisited(s.visited, v) ==> t.distances[v] == s.distances[v]
    ensures !IsVisited(s.visited, v) && IsVisited(t.visited, v) ==> t.event == Visiting(v)
  {
    match t.event
    case Visiting(x) =>
    case Updated(u) => UpdateChanges(adj, s, t, u);
    case Complete =>
  }

  /** The `j`-th edge scanned in an `Updated` transition leads to `u` and shortens its distance. */
  lemma UpdatedByEdge(s: Step, t: Step, cur: string, u: string, edges: seq<Edge>, j: nat)
    requires cur in s.distances && u in s.distances
    requires 0 < j <= |edges| && UpdatedBy(s, t, cur, u, edges[..j])
    ensures edges[j - 1].to == u && s.distances[cur] + edges[j - 1].weight < s.distances[u]
    ensures t.distances == s.distances[u := s.distances[cur] + edges[j - 1].weight]
    ensures t.exploringEdges == Explored(cur, edges[..j], s.visited)
  {
    assert edges[..j][j - 1] == edges[j - 1];
  }

  /** The `Updated(u)` snapshot `t` relaxes the `j`-th edge out of the current vertex of `s`, the first that shortens a distance. */
  ghost predicate RelaxesEdge(adj: Adjacency, s: Step, t: Step, u: string, j: int)
  {
    var cur, edges := s.currentVertex, Neighbors(adj, s.currentVertex);
    && 0 < j <= |edges| && RelaxedUpTo(adj, s.distances, cur, j - 1)
    && edges[j - 1].to == u && u in s.distances && s.distances[cur] + edges[j - 1].weight < s.distances[u]
    && t == Step(s.distances[u := s.distances[cur] + edges[j - 1].weight], s.visited, cur,
                 s.previousVertex[u := cur], Explored(cur, edges[..j], s.visited), Updated(u))
  }

  lemma UpdateIsRelaxesEdge(adj: Adjacency, s: Step, t: Step) returns (j: nat)
    requires Transition(adj, s, t) && t.event.Updated?
    ensures RelaxesEdge(adj, s, t, t.event.vertex, j)
  {
    UpdateTransitionOf(adj, s, t);
    j := UpdateTransitionRelaxes(adj, s, t, t.event.vertex);
  }

  lemma UpdateTransitionOf(adj: Adjacency, s: Step, t: Step)
    requires Transition(adj, s, t) && t.event.Updated?
    ensures UpdateTransition(adj, s, t, t.event.vertex)
  {
  }

  lemma UpdateTransitionRelaxes(adj: Adjacency, s: Step, t: Step, u: string) returns (j: nat)
    requires UpdateTransition(adj, s, t, u) && t.event == Updated(u)
    ensures RelaxesEdge(adj, s, t, u, j)
  {
    var cur := t.currentVertex;
    var edges := Neighbors(adj, cur);
    j :| 0 < j <= |edges| && RelaxedUpTo(adj, s.distances, cur, j - 1) && UpdatedBy(s, t, cur, u, edges[..j]);
    RelaxesEdgeOf(adj, s, t, u, j);
  }

  lemma RelaxesEdgeOf(adj: Adjacency, s: Step, t: Step, u: string, j: nat)
    requires s.currentVertex in s.distances && u in s.distances
    requires t.currentVertex == s.currentVertex && t.visited == s.visited && t.event == Updated(u)
    requires t.previousVertex == s.previousVertex[u := s.currentVertex]
    requires 0 < j <= |Neighbors(adj, s.currentVertex)| && RelaxedUpTo(adj, s.distances, s.currentVertex, j - 1)
    requires UpdatedBy(s, t, s.currentVertex, u, Neighbors(adj, s.currentVertex)[..j])
    ensures RelaxesEdge(adj, s, t, u, j)
  {
    UpdatedByEdge(s, t, s.currentVertex, u, Neighbors(adj, s.currentVertex), j);
    assert t == Step(t.distances, t.visited, t.currentVertex, t.previousVertex, t.exploringEdges, Updated(u));
  }

  /** Only the first shortening edge can be the one relaxed. */
  lemma RelaxesSameEdge(adj: Adjacency, s: Step, t1: Step, t2: Step, u1: string, u2: string, j1: int, j2: int)
    requires RelaxesEdge(adj, s, t1, u1, j1) && RelaxesEdge(adj, s, t2, u2, j2)
    ensures t1 == t2
  {
    if j1 < j2 {
      assert false;
    } else if j2 < j1 {
      assert false;
    }
  }

  /**
   * At most one `Updated` snapshot can follow `s`: the one for the first edge
   * out of the current vertex that still shortens a distance.
   */
  lemma UpdateDeterministic(adj: Adjacency, s: Step, t1: Step, t2: Step)
    requires Transition(adj, s, t1) && Transition(adj, s, t2)
    requires t1.event.Updated? && t2.event.Updated?
    ensures t1 == t2
  {
    var j1 := UpdateIsRelaxesEdge(adj, s, t1);
    var j2 := UpdateIsRelaxesEdge(adj, s, t2);
    RelaxesSameEdge(adj, s, t1, t2, t1.event.vertex, t2.event.vertex, j1, j2);
  }

  /** An `Updated` snapshot follows `s` only while the scan of its vertex is not done. */
  lemma UpdateOnlyWhileScanning(adj: Adjacency, s: Step, t: Step)
    requires Transition(adj, s, t) && t.event.Updated?
    ensures !ScanDone(adj, s)
  {
    var j := UpdateIsRelaxesEdge(adj, s, t);
    assert s.event.Visiting? || s.event.Updated?;
    assert !RelaxedUpTo(adj, s.distances, s.currentVertex, j);
  }

  // ---------------------------------------------------------------------
  // Every trace

  /** Once visited, a vertex stays visited in every later snapshot. */
  lemma {:induction false} VisitedMonotone(adj: Adjacency, start: string, steps: seq<Step>, i: nat, j: nat, v: string)
    requires Trace(adj, start, steps) && i <= j < |steps|
    requires IsVisited(steps[i].visited, v)
    ensures IsVisited(steps[j].visited, v)
    decreases j - i
  {
    if i < j {
      VisitedMonotone(adj, start, steps, i, j - 1, v);
      TraceStep(adj, start, steps, j);
      TransitionKeeps(adj, steps[j - 1], steps[j], v);
    }
  }

  /** Distances only ever decrease, and a vertex keeps its distance from the snapshot on. */
  lemma {:induction false} DistancesNonIncreasing(adj: Adjacency, start: string, steps: seq<Step>, i: nat, j: nat, v: string)
    requires Trace(adj, start, steps) && i <= j < |steps|
    requires v in steps[i].distances
    ensures v in steps[j].distances && steps[j].distances[v] <= steps[i].distances[v]
    decreases j - i
  {
    if i < j {
      DistancesNonIncreasing(adj, start, steps, i, j - 1, v);
      TraceStep(adj, start, steps, j);
      TransitionKeeps(adj, steps[j - 1], steps[j], v);
    }
  }

  /** The distance of a visited vertex is final: no later snapshot changes it. */
  lemma {:induction false} VisitedDistanceFrozen(adj: Adjacency, start: string, steps: seq<Step>, i: nat, j: nat, v: string)
    requires Trace(adj, start, steps) && i <= j < |steps|
    requires v in steps[i].distances && IsVisited(steps[i].visited, v)
    ensures v in steps[j].distances && steps[j].distances[v] == steps[i].distances[v]
    decreases j - i
  {
    if i < j {
      VisitedDistanceFrozen(adj, start, steps, i, j - 1, v);
      VisitedMonotone(adj, start, steps, i, j - 1, v);
      TraceStep(adj, start, steps, j);
      TransitionKeeps(adj, steps[j - 1], steps[j], v);
    }
  }

  /** The snapshot reporting the visit of `v` shows `v` visited. */
  lemma VisitingMarks(adj: Adjacency, start: string, steps: seq<Step>, i: nat, v: string)
    requires Trace(adj, start, steps) && i < |steps| && steps[i].event == Visiting(v)
    ensures 0 < i && !IsVisited(steps[i - 1].visited, v) && IsVisited(steps[i].visited, v)
  {
    if i > 0 {
      TraceStep(adj, start, steps, i);
    }
  }

  /** Each vertex is reported `Visiting` at most once. */
  lemma VisitingOnce(adj: Adjacency, start: string, steps: seq<Step>, i: nat, j: nat, v: string)
    requires Trace(adj, start, steps) && i < |steps| && j < |steps|
    requires steps[i].event == Visiting(v) && steps[j].event == Visiting(v)
    ensures i == j
  {
    VisitingMarks(adj, start, steps, i, v);
    VisitingMarks(adj, start, steps, j, v);
    if i < j {
      VisitedMonotone(adj, start, steps, i, j - 1, v);
    } else if j < i {
      VisitedMonotone(adj, start, steps, j, i - 1, v);
    }
  }

  /** A vertex shown visited was reported `Visiting` at or before that snapshot. */
  lemma {:induction false} VisitedWasReported(adj: Adjacency, start: string, steps: seq<Step>, i: nat, v: string)
    requires Trace(adj, start, steps) && i < |steps|
    requires IsVisited(steps[i].visited, v)
    ensures exists k :: 0 < k <= i && steps[k].event == Visiting(v)
  {
    if i > 0 {
      if IsVisited(steps[i - 1].visited, v) {
        VisitedWasReported(adj, start, steps, i - 1, v);
      } else {
        TraceStep(adj, start, steps, i);
        TransitionKeeps(adj, steps[i - 1], steps[i], v);
      }
    }
  }

  /**
   * Along a run of `Updated` snapshots, the list of explored edges only grows:
   * each earlier list is a proper prefix of each later one.
   */
  lemma {:induction false} ExploringGrows(adj: Adjacency, start: string, steps: seq<Step>, i: nat, j: nat)
    requires Trace(adj, start, steps) && i <= j < |steps|
    requires forall k :: i < k <= j ==> steps[k].event.Updated?
    ensures steps[i].exploringEdges <= steps[j].exploringEdges
    ensures i < j ==> |steps[i].exploringEdges| < |steps[j].exploringEdges|
    decreases j - i
  {
    if i < j {
      ExploringGrows(adj, start, steps, i, j - 1);
      TraceStep(adj, start, steps, j);
      assert steps[j].event.Updated?;
    }
  }

  // ---------------------------------------------------------------------
  // The final snapshot

  /**
   * A vertex left at `MaxInt32` (printed UNREACHABLE) has no predecessor and
   * was never reported `Visiting`.
   */
  lemma Unreachable(adj: Adjacency, start: string, steps: seq<Step>, v: string)
    requires Trace(adj, start, steps) && IsFinal(adj, start, Last(steps))
    requires v in Last(steps).distances && Last(steps).distances[v] == MaxInt32
    ensures v !in Last(steps).previousVertex
    ensures forall k :: 0 <= k < |steps| ==> steps[k].event != Visiting(v)
  {
    forall k | 0 <= k < |steps|
      ensures steps[k].event != Visiting(v)
    {
      if steps[k].event == Visiting(v) {
        VisitingMarks(adj, start, steps, k, v);
        VisitedMonotone(adj, start, steps, k, |steps| - 1, v);
      }
    }
  }

  /** Optimality: the final distance of a vertex is at most the weight of any walk to it from `start`. */
  lemma ShortestBound(adj: Adjacency, start: string, s: Step, v: string, hops: seq<Hop>)
    requires IsFinal(adj, start, s) && IsWalk(adj, start, v, hops)
    ensures v in s.distances && s.distances[v] <= WalkWeight(hops)
  {
    FeasibleBoundsWalk(adj, s.distances, start, v, hops);
  }

  /**
   * Soundness: following the predecessors back from a reached vertex yields a
   * walk from `start` whose weight is exactly the vertex's distance.
   */
  lemma {:induction false} PredecessorWalk(adj: Adjacency, start: string, d: map<string, int>, prev: map<string, string>,
                                           v: string, n: nat)
    returns (hops: seq<Hop>)
    requires NonNegative(adj) && start in d && d[start] == 0
    requires PredEdges(adj, d, prev) && PredTotal(start, d, prev)
    requires v in d && d[v] < MaxInt32 && ChainEnds(prev, v, n)
    ensures IsWalk(adj, start, v, hops) && WalkWeight(hops) == d[v]
    decreases n
  {
    if v !in prev {
      assert !(Reached(d, v) && v != start);
      hops := [];
    } else {
      var p := prev[v];
      assert PredecessorEdge(adj, d, prev, v);
      var w := d[v] - d[p];
      assert p in adj && Edge(v, w) in adj[p];
      var front := PredecessorWalk(adj, start, d, prev, p, n - 1);
      WalkAppend(adj, start, p, front, v, w);
      hops := front + [Hop(p, v, w)];
    }
  }

  /**
   * The final distances are the shortest-path distances: no walk from `start`
   * is lighter, and a reached vertex has a walk of exactly its distance.
   */
  lemma ShortestPaths(adj: Adjacency, start: string, s: Step, v: string)
    requires NonNegative(adj) && IsFinal(adj, start, s) && v in s.distances
    ensures forall hops :: IsWalk(adj, start, v, hops) ==> s.distances[v] <= WalkWeight(hops)
    ensures s.distances[v] < MaxInt32 ==> exists hops :: IsWalk(adj, start, v, hops) && WalkWeight(hops) == s.distances[v]
  {
    forall hops | IsWalk(adj, start, v, hops)
      ensures s.distances[v] <= WalkWeight(hops)
    {
      ShortestBound(adj, start, s, v, hops);
    }
    if s.distances[v] < MaxInt32 {
      var n :| ChainEnds(s.previousVertex, v, n);
      assert PredEdges(adj, s.distances, s.previousVertex);
      var hops := PredecessorWalk(adj, start, s.distances, s.previousVertex, v, n);
    }
  }
}
