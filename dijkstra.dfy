/**
 * The step-recording engine of internal/algorithm/dijkstra.go. `Dijkstra`
 * settles vertices in order of distance from `start`, skips queue entries for
 * vertices already visited (lazy deletion) and appends a snapshot `Step` at
 * every observable event. Unreached vertices carry Go's `math.MaxInt32`.
 */
module Algorithm {
  import opened Wrappers
  import opened Graphs
  import opened Queues

  /** Go's `math.MaxInt32`: the distance of a vertex not reached (yet). */
  const MaxInt32: int := 0x7fff_ffff

  datatype EdgeExploration = EdgeExploration(from: string, to: string, weight: int)

  /** What a step reports; Go keeps this as the step's description text. */
  datatype Event = Initial | Visiting(vertex: string) | Updated(vertex: string) | Complete

  datatype Step = Step(
    distances: map<string, int>,
    visited: map<string, bool>,
    currentVertex: string,
    previousVertex: map<string, string>,
    exploringEdges: seq<EdgeExploration>,
    event: Event)

  /** Go's `visited[v]`: false for a vertex without an entry. */
  predicate IsVisited(visited: map<string, bool>, v: string)
  {
    Get(visited, v, false)
  }

  /** `copyMap`, `copyBoolMap` and `copyStringMap`: a fresh map with the same entries. */
  method CopyMap<V>(m: map<string, V>) returns (r: map<string, V>)
    ensures r == m
  {
    r := map[];
    var rest := m.Keys;
    while rest != {}
      invariant rest <= m.Keys
      invariant forall k :: k in r <==> k in m && k !in rest
      invariant forall k :: k in r ==> r[k] == m[k]
      decreases rest
    {
      var k :| k in rest;
      r := r[k := m[k]];
      rest := rest - {k};
    }
  }

  /**
   * The explorations recorded while scanning `edges` out of `cur`: an edge to
   * a visited vertex is skipped, every other one is recorded in order.
   */
  function Explored(cur: string, edges: seq<Edge>, visited: map<string, bool>): (r: seq<EdgeExploration>)
    ensures |r| <= |edges|
    ensures forall x :: x in r ==> x.from == cur && !IsVisited(visited, x.to) && Edge(x.to, x.weight) in edges
    decreases |edges|
  {
    if edges == [] then []
    else
      var e := edges[|edges| - 1];
      Explored(cur, edges[..|edges| - 1], visited)
        + (if IsVisited(visited, e.to) then [] else [EdgeExploration(cur, e.to, e.weight)])
  }

  /** The snapshot `Dijkstra` takes before its loop. */
  ghost predicate IsInitial(adj: Adjacency, start: string, s: Step)
  {
    && s.event == Initial
    && s.currentVertex == start
    && s.exploringEdges == []
    && s.distances.Keys == adj.Keys + {start}
    && s.distances[start] == 0
    && (forall v :: v in adj && v != start ==> s.distances[v] == MaxInt32)
    && s.visited.Keys == adj.Keys
    && (forall v :: v in adj ==> !s.visited[v])
    && s.previousVertex == map[]
  }

  /** The snapshot `t` may directly follow the snapshot `s`. */
  ghost predicate Transition(adj: Adjacency, s: Step, t: Step)
  {
    match t.event
    case Initial => false
    case Visiting(v) =>
      // the popped vertex was unvisited, reached, and no unvisited vertex is closer
      && t.currentVertex == v
      && t.exploringEdges == []
      && v in s.distances
      && !IsVisited(s.visited, v)
      && s.distances[v] < MaxInt32
      && (forall y :: y in s.distances && !IsVisited(s.visited, y) ==> s.distances[v] <= s.distances[y])
      && ScanDone(adj, s)
      && t.distances == s.distances
      && t.visited == s.visited[v := true]
      && t.previousVertex == s.previousVertex
    case Updated(u) => UpdateTransition(adj, s, t, u)
    case Complete =>
      && t.currentVertex == ""
      && t.exploringEdges == []
      && ScanDone(adj, s)
      && t.distances == s.distances
      && t.visited == s.visited
      && t.previousVertex == s.previousVertex
  }

  /** `t` reports that the first edge out of the current vertex that still shortens a distance, to `u`, was relaxed. */
  ghost predicate UpdateTransition(adj: Adjacency, s: Step, t: Step, u: string)
  {
    var cur := t.currentVertex;
    var edges := Neighbors(adj, cur);
    && s.currentVertex == cur && (s.event == Visiting(cur) || s.event.Updated?)
    && cur in s.distances
    && IsVisited(s.visited, cur)
    && u in s.distances
    && !IsVisited(s.visited, u)
    && t.visited == s.visited
    && t.previousVertex == s.previousVertex[u := cur]
    && (exists j :: 0 < j <= |edges| && RelaxedUpTo(adj, s.distances, cur, j - 1) && UpdatedBy(s, t, cur, u, edges[..j]))
    && |s.exploringEdges| < |t.exploringEdges|
    && s.exploringEdges == t.exploringEdges[..|s.exploringEdges|]
  }

  /**
   * After a `Visiting` or `Updated` snapshot `s`, the scan of its current
   * vertex may end only once no edge out of it shortens a distance.
   */
  ghost predicate ScanDone(adj: Adjacency, s: Step)
  {
    s.event.Visiting? || s.event.Updated? ==> RelaxedFrom(adj, s.distances, s.currentVertex)
  }

  /** The last of the scanned edges `scanned` (out of `cur`) leads to `u` and improved its distance. */
  ghost predicate UpdatedBy(s: Step, t: Step, cur: string, u: string, scanned: seq<Edge>)
    requires cur in s.distances && u in s.distances
  {
    && scanned != []
    && var e := scanned[|scanned| - 1];
    && e.to == u
    && s.distances[cur] + e.weight < s.distances[u]
    && t.distances == s.distances[u := s.distances[cur] + e.weight]
    && t.exploringEdges == Explored(cur, scanned, s.visited)
  }

  /** `steps` starts with the initial snapshot and each later snapshot follows its predecessor. */
  ghost predicate Trace(adj: Adjacency, start: string, steps: seq<Step>)
  {
    && |steps| >= 1
    && IsInitial(adj, start, steps[0])
    && forall i, j {:trigger steps[i], steps[j]} :: 0 <= i && j == i + 1 && j < |steps| ==> Transition(adj, steps[i], steps[j])
  }

  lemma TraceAppend(adj: Adjacency, start: string, steps: seq<Step>, t: Step)
    requires Trace(adj, start, steps) && Transition(adj, steps[|steps| - 1], t)
    ensures Trace(adj, start, steps + [t])
  {
    var s := steps + [t];
    forall i, j | 0 <= i && j == i + 1 && j < |s|
      ensures Transition(adj, s[i], s[j])
    {
      if j < |steps| {
        assert s[i] == steps[i] && s[j] == steps[j];
      }
    }
  }

  // ---------------------------------------------------------------------
  // Reachability through the predecessor map

  /** Following `prev` from `v` reaches a vertex without a predecessor within `n` hops. */
  ghost predicate ChainEnds(prev: map<string, string>, v: string, n: nat)
    decreases n
  {
    if v !in prev then true else n > 0 && ChainEnds(prev, prev[v], n - 1)
  }

  // ---------------------------------------------------------------------
  // What holds of the final snapshot

  /**
   * The final maps of a run on `adj` from `start`: every half-edge satisfies
   * the triangle inequality, a vertex is visited exactly when it was reached,
   * and every reached vertex other than `start` has a predecessor joined to it
   * by an edge that accounts exactly for the difference in distance.
   */
  ghost predicate IsFinal(adj: Adjacency, start: string, s: Step)
  {
    var d, vis, prev := s.distances, s.visited, s.previousVertex;
    && d.Keys == adj.Keys + {start}
    && d[start] == 0
    && (forall v :: v in d ==> 0 <= d[v] <= MaxInt32)
    && (forall v :: v in d ==> (IsVisited(vis, v) <==> d[v] < MaxInt32))
    && vis.Keys <= d.Keys
    && Feasible(adj, d)
    && start !in prev
    && (forall v :: v in prev ==> PredecessorEdge(adj, d, prev, v))
    && PredTotal(start, d, prev)
    && (forall v :: v in d ==> exists n :: ChainEnds(prev, v, n))
  }

  ghost predicate PredecessorEdge(adj: Adjacency, d: map<string, int>, prev: map<string, string>, v: string)
    requires v in prev
  {
    var p := prev[v];
    && p in d && v in d
    && d[v] < MaxInt32
    && Edge(v, d[v] - d[p]) in Neighbors(adj, p)
  }

  // ---------------------------------------------------------------------
  // Loop invariants of `Dijkstra`

  ghost predicate Domains(adj: Adjacency, start: string, d: map<string, int>, vis: map<string, bool>, prev: map<string, string>)
  {
    && d.Keys == adj.Keys + {start}
    && adj.Keys <= vis.Keys <= d.Keys
    && start !in prev
    && d[start] == 0
    && (forall v :: v in d ==> 0 <= d[v] <= MaxInt32)
  }

  /** Lazy deletion: entries may be stale, but each reached unvisited vertex has a current one. */
  ghost predicate QueueInv(d: map<string, int>, vis: map<string, bool>, q: multiset<Entry>)
  {
    && (forall e :: e in q ==> e.vertex in d && d[e.vertex] <= e.distance < MaxInt32)
    && (forall v :: v in d && !IsVisited(vis, v) && d[v] < MaxInt32 ==> Entry(v, d[v]) in q)
  }

  /**
   * Visited vertices are reached, and the bound `b` (the distance of the vertex
   * visited last) separates them from the unvisited vertices and the queue.
   */
  ghost predicate Settled(d: map<string, int>, vis: map<string, bool>, q: multiset<Entry>, b: int)
  {
    && (forall x :: x in d && IsVisited(vis, x) ==> d[x] < MaxInt32 && d[x] <= b)
    && (forall y :: y in d && !IsVisited(vis, y) ==> b <= d[y])
    && (forall e :: e in q ==> b <= e.distance)
  }

  /** The first `n` edges out of `u` satisfy the triangle inequality. */
  ghost predicate RelaxedUpTo(adj: Adjacency, d: map<string, int>, u: string, n: nat)
  {
    var edges := Neighbors(adj, u);
    && u in d
    && n <= |edges|
    && forall k :: 0 <= k < n ==> edges[k].to in d && d[edges[k].to] <= d[u] + edges[k].weight
  }

  ghost predicate RelaxedFrom(adj: Adjacency, d: map<string, int>, u: string)
  {
    RelaxedUpTo(adj, d, u, |Neighbors(adj, u)|)
  }

  /** `order` numbers the visited vertices, all below `clock`. */
  ghost predicate VisitOrder(d: map<string, int>, vis: map<string, bool>, order: map<string, nat>, clock: nat)
  {
    && (forall v :: v in order <==> v in d && IsVisited(vis, v))
    && (forall v :: v in order ==> order[v] < clock)
  }

  ghost predicate PredEdges(adj: Adjacency, d: map<string, int>, prev: map<string, string>)
  {
    forall v :: v in prev ==> PredecessorEdge(adj, d, prev, v)
  }

  /** Each predecessor was visited, and before the vertex itself if that is visited too. */
  ghost predicate PredOrdered(prev: map<string, string>, order: map<string, nat>)
  {
    forall v :: v in prev ==> prev[v] in order && (v in order ==> order[prev[v]] < order[v])
  }

  /** `v` has a distance below `MaxInt32`. */
  ghost predicate Reached(d: map<string, int>, v: string)
  {
    v in d && d[v] < MaxInt32
  }

  /** Every reached vertex but `start` has a predecessor. */
  ghost predicate PredTotal(start: string, d: map<string, int>, prev: map<string, string>)
  {
    forall v :: Reached(d, v) && v != start ==> v in prev
  }

  /** What the engine keeps of its predecessor map while it runs. */
  ghost predicate PredInv(adj: Adjacency, start: string, d: map<string, int>, vis: map<string, bool>,
                          prev: map<string, string>, order: map<string, nat>, clock: nat)
  {
    && VisitOrder(d, vis, order, clock)
    && PredEdges(adj, d, prev)
    && PredOrdered(prev, order)
    && PredTotal(start, d, prev)
  }

  /** Every edge out of a visited vertex satisfies the triangle inequality. */
  ghost predicate AllRelaxed(adj: Adjacency, d: map<string, int>, vis: map<string, bool>)
  {
    forall u :: u in d && IsVisited(vis, u) ==> RelaxedFrom(adj, d, u)
  }

  /** The same, except perhaps for the vertex `cur` being expanded. */
  ghost predicate AllRelaxedBut(adj: Adjacency, d: map<string, int>, vis: map<string, bool>, cur: string)
  {
    forall u :: u in d && IsVisited(vis, u) && u != cur ==> RelaxedFrom(adj, d, u)
  }

  /** The invariant of the outer loop, between two pops. */
  ghost predicate Between(adj: Adjacency, start: string, d: map<string, int>, vis: map<string, bool>,
                          prev: map<string, string>, q: multiset<Entry>, order: map<string, nat>, clock: nat, b: int)
  {
    && Domains(adj, start, d, vis, prev)
    && QueueInv(d, vis, q)
    && Settled(d, vis, q, b)
    && AllRelaxed(adj, d, vis)
    && PredInv(adj, start, d, vis, prev, order, clock)
  }

  /** The invariant of the inner loop, after the first `n` edges out of `cur`. */
  ghost predicate Expanding(adj: Adjacency, start: string, d: map<string, int>, vis: map<string, bool>,
                            prev: map<string, string>, q: multiset<Entry>, order: map<string, nat>, clock: nat,
                            cur: string, n: nat)
  {
    && cur in d && IsVisited(vis, cur)
    && Domains(adj, start, d, vis, prev)
    && QueueInv(d, vis, q)
    && Settled(d, vis, q, d[cur])
    && AllRelaxedBut(adj, d, vis, cur)
    && RelaxedUpTo(adj, d, cur, n)
    && PredInv(adj, start, d, vis, prev, order, clock)
  }


  // ---------------------------------------------------------------------
  // One step of the outer loop: a pop

  /** The least entry `e` names a reached vertex no further than any unvisited one. */
  lemma PopIsGreedy(d: map<string, int>, vis: map<string, bool>, q: multiset<Entry>, e: Entry)
    requires QueueInv(d, vis, q)
    requires e in q
    requires forall f :: f in q - multiset{e} ==> e.distance <= f.distance
    ensures e.vertex in d && d[e.vertex] < MaxInt32
    ensures forall y :: y in d && !IsVisited(vis, y) ==> d[e.vertex] <= d[y]
  {
    forall y | y in d && !IsVisited(vis, y)
      ensures d[e.vertex] <= d[y]
    {
      if d[y] < MaxInt32 && Entry(y, d[y]) != e {
        assert Entry(y, d[y]) in q - multiset{e};
      }
    }
  }

  lemma VisitKeepsQueue(d: map<string, int>, vis: map<string, bool>, q: multiset<Entry>, b: int, e: Entry)
    requires QueueInv(d, vis, q) && Settled(d, vis, q, b)
    requires e in q && e.vertex in d && !IsVisited(vis, e.vertex) && d[e.vertex] < MaxInt32
    requires forall f :: f in q - multiset{e} ==> e.distance <= f.distance
    requires forall y :: y in d && !IsVisited(vis, y) ==> d[e.vertex] <= d[y]
    ensures QueueInv(d, vis[e.vertex := true], q - multiset{e})
    ensures Settled(d, vis[e.vertex := true], q - multiset{e}, d[e.vertex])
  {
    var v, q', vis' := e.vertex, q - multiset{e}, vis[e.vertex := true];
    forall y | y in d && !IsVisited(vis', y) && d[y] < MaxInt32
      ensures Entry(y, d[y]) in q'
    {
      assert Entry(y, d[y]) in q;
    }
    forall f | f in q'
      ensures d[v] <= f.distance
    {
      assert f in q;
    }
  }

  lemma VisitKeepsPred(adj: Adjacency, start: string, d: map<string, int>, vis: map<string, bool>,
                       prev: map<string, string>, order: map<string, nat>, clock: nat, v: string)
    requires PredInv(adj, start, d, vis, prev, order, clock)
    requires v in d && !IsVisited(vis, v)
    ensures PredInv(adj, start, d, vis[v := true], prev, order[v := clock], clock + 1)
  {
  }

  /** Popping the least entry `e` of an unvisited vertex and marking it visited starts an expansion. */
  lemma VisitKeeps(adj: Adjacency, start: string, d: map<string, int>, vis: map<string, bool>,
                   prev: map<string, string>, q: multiset<Entry>, order: map<string, nat>, clock: nat, b: int, e: Entry)
    requires Between(adj, start, d, vis, prev, q, order, clock, b)
    requires e in q && !IsVisited(vis, e.vertex)
    requires forall f :: f in q - multiset{e} ==> e.distance <= f.distance
    ensures e.vertex in d && d[e.vertex] < MaxInt32
    ensures forall y :: y in d && !IsVisited(vis, y) ==> d[e.vertex] <= d[y]
    ensures Expanding(adj, start, d, vis[e.vertex := true], prev, q - multiset{e}, order[e.vertex := clock], clock + 1, e.vertex, 0)
  {
    PopIsGreedy(d, vis, q, e);
    VisitKeepsQueue(d, vis, q, b, e);
    VisitKeepsPred(adj, start, d, vis, prev, order, clock, e.vertex);
  }

  /** Popping an entry of a vertex already visited changes nothing but the queue. */
  lemma StaleKeeps(adj: Adjacency, start: string, d: map<string, int>, vis: map<string, bool>,
                   prev: map<string, string>, q: multiset<Entry>, order: map<string, nat>, clock: nat, b: int, e: Entry)
    requires Between(adj, start, d, vis, prev, q, order, clock, b)
    requires e in q && IsVisited(vis, e.vertex)
    ensures Between(adj, start, d, vis, prev, q - multiset{e}, order, clock, b)
  {
    var q' := q - multiset{e};
    forall y | y in d && !IsVisited(vis, y) && d[y] < MaxInt32
      ensures Entry(y, d[y]) in q'
    {
      assert Entry(y, d[y]) in q;
    }
    assert QueueInv(d, vis, q');
  }

  // ---------------------------------------------------------------------
  // One step of the inner loop: an edge out of the vertex being expanded

  /** Every neighbour of a vertex is itself a vertex of a symmetric adjacency. */
  lemma NeighborIsVertex(adj: Adjacency, u: string, e: Edge)
    requires Symmetric(adj) && e in Neighbors(adj, u)
    ensures u in adj && e.to in adj
  {
  }

  lemma RelaxKeepsDomains(adj: Adjacency, start: string, d: map<string, int>, vis: map<string, bool>,
                          prev: map<string, string>, cur: string, x: string, nd: int)
    requires Domains(adj, start, d, vis, prev)
    requires cur in d && 0 <= d[cur]
    requires x in adj && d[cur] <= nd < d[x]
    ensures Domains(adj, start, d[x := nd], vis, prev[x := cur])
  {
    assert x != start;
    var d' := d[x := nd];
    assert d'.Keys == d.Keys;
    forall v | v in d'
      ensures 0 <= d'[v] <= MaxInt32
    {
      if v != x {
        assert d'[v] == d[v];
      }
    }
  }

  lemma RelaxKeepsQueue(d: map<string, int>, vis: map<string, bool>, q: multiset<Entry>, x: string, nd: int)
    requires QueueInv(d, vis, q)
    requires x in d && nd < d[x] && (forall v :: v in d ==> d[v] <= MaxInt32)
    ensures QueueInv(d[x := nd], vis, q + multiset{Entry(x, nd)})
  {
    var d', q' := d[x := nd], q + multiset{Entry(x, nd)};
    forall f | f in q'
      ensures f.vertex in d' && d'[f.vertex] <= f.distance < MaxInt32
    {
      if f != Entry(x, nd) {
        assert f in q;
      }
    }
    forall v | v in d' && !IsVisited(vis, v) && d'[v] < MaxInt32
      ensures Entry(v, d'[v]) in q'
    {
      if v != x {
        assert Entry(v, d[v]) in q;
      }
    }
  }

  lemma RelaxKeepsSettled(d: map<string, int>, vis: map<string, bool>, q: multiset<Entry>, b: int, x: string, nd: int)
    requires Settled(d, vis, q, b)
    requires x in d && !IsVisited(vis, x) && b <= nd
    ensures Settled(d[x := nd], vis, q + multiset{Entry(x, nd)}, b)
  {
    var q' := q + multiset{Entry(x, nd)};
    forall f | f in q'
      ensures b <= f.distance
    {
      if f != Entry(x, nd) {
        assert f in q;
      }
    }
  }

  lemma RelaxKeepsRelaxed(adj: Adjacency, d: map<string, int>, vis: map<string, bool>,
                          cur: string, n: nat, x: string, nd: int)
    requires cur in d && IsVisited(vis, cur)
    requires AllRelaxedBut(adj, d, vis, cur)
    requires RelaxedUpTo(adj, d, cur, n)
    requires n < |Neighbors(adj, cur)| && Neighbors(adj, cur)[n] == Edge(x, nd - d[cur])
    requires x in d && !IsVisited(vis, x) && nd < d[x]
    ensures AllRelaxedBut(adj, d[x := nd], vis, cur)
    ensures RelaxedUpTo(adj, d[x := nd], cur, n + 1)
  {
    var d' := d[x := nd];
    forall u | u in d' && IsVisited(vis, u) && u != cur
      ensures RelaxedFrom(adj, d', u)
    {
      assert RelaxedFrom(adj, d, u);
    }
  }

  lemma RelaxKeepsPredEdges(adj: Adjacency, d: map<string, int>, vis: map<string, bool>,
                            prev: map<string, string>, order: map<string, nat>, clock: nat,
                            cur: string, n: nat, x: string, nd: int)
    requires VisitOrder(d, vis, order, clock) && PredEdges(adj, d, prev) && PredOrdered(prev, order)
    requires cur in d && IsVisited(vis, cur)
    requires n < |Neighbors(adj, cur)| && Neighbors(adj, cur)[n] == Edge(x, nd - d[cur])
    requires x in d && !IsVisited(vis, x) && nd < MaxInt32
    ensures PredEdges(adj, d[x := nd], prev[x := cur])
  {
    var d', prev' := d[x := nd], prev[x := cur];
    forall v | v in prev'
      ensures PredecessorEdge(adj, d', prev', v)
    {
      if v != x {
        assert PredecessorEdge(adj, d, prev, v);
        assert prev[v] in order;
        assert d'[v] == d[v] && d'[prev[v]] == d[prev[v]];
      } else {
        assert d'[x] - d'[cur] == nd - d[cur];
        assert Neighbors(adj, cur)[n] in Neighbors(adj, cur);
      }
    }
  }

  lemma RelaxKeepsPred(adj: Adjacency, start: string, d: map<string, int>, vis: map<string, bool>,
                       prev: map<string, string>, order: map<string, nat>, clock: nat,
                       cur: string, n: nat, x: string, nd: int)
    requires PredInv(adj, start, d, vis, prev, order, clock)
    requires cur in d && IsVisited(vis, cur)
    requires n < |Neighbors(adj, cur)| && Neighbors(adj, cur)[n] == Edge(x, nd - d[cur])
    requires x in d && !IsVisited(vis, x) && nd < MaxInt32
    ensures PredInv(adj, start, d[x := nd], vis, prev[x := cur], order, clock)
  {
    var d', prev' := d[x := nd], prev[x := cur];
    assert d'.Keys == d.Keys;
    RelaxKeepsPredEdges(adj, d, vis, prev, order, clock, cur, n, x, nd);
    assert PredOrdered(prev', order) by {
      assert x !in order;
    }
    forall v | Reached(d', v) && v != start
      ensures v in prev'
    {
      if v != x {
        assert Reached(d, v);
      }
    }
  }

  /** The `n`-th edge out of `cur` leads to an unvisited `x` and brings it closer. */
  ghost predicate CanRelax(adj: Adjacency, start: string, d: map<string, int>, vis: map<string, bool>,
                           prev: map<string, string>, q: multiset<Entry>, order: map<string, nat>, clock: nat,
                           cur: string, n: nat, x: string, w: int, nd: int)
  {
    && Symmetric(adj) && NonNegative(adj)
    && Expanding(adj, start, d, vis, prev, q, order, clock, cur, n)
    && n < |Neighbors(adj, cur)| && Neighbors(adj, cur)[n] == Edge(x, w)
    && x in d && !IsVisited(vis, x) && d[cur] + w < d[x]
    && nd == d[cur] + w
  }

  lemma RelaxKeepsDomainsPart(adj: Adjacency, start: string, d: map<string, int>, vis: map<string, bool>,
                              prev: map<string, string>, q: multiset<Entry>, order: map<string, nat>, clock: nat,
                              cur: string, n: nat, x: string, w: int, nd: int)
    requires Symmetric(adj) && NonNegative(adj)
    requires cur in d && Domains(adj, start, d, vis, prev) && Settled(d, vis, q, d[cur])
    requires n < |Neighbors(adj, cur)| && Neighbors(adj, cur)[n] == Edge(x, w)
    requires x in d && !IsVisited(vis, x) && d[cur] + w < d[x]
    requires nd == d[cur] + w
    ensures Domains(adj, start, d[x := nd], vis, prev[x := cur])
    ensures Settled(d[x := nd], vis, q + multiset{Entry(x, nd)}, d[cur])
  {
    NeighborIsVertex(adj, cur, Edge(x, w));
    RelaxKeepsDomains(adj, start, d, vis, prev, cur, x, nd);
    RelaxKeepsSettled(d, vis, q, d[cur], x, nd);
  }

  lemma RelaxKeepsQueuePart(adj: Adjacency, start: string, d: map<string, int>, vis: map<string, bool>,
                            prev: map<string, string>, q: multiset<Entry>, order: map<string, nat>, clock: nat,
                            cur: string, n: nat, x: string, w: int, nd: int)
    requires cur in d && Domains(adj, start, d, vis, prev) && QueueInv(d, vis, q)
    requires x in d && d[cur] + w < d[x]
    requires nd == d[cur] + w
    ensures QueueInv(d[x := nd], vis, q + multiset{Entry(x, nd)})
  {
    RelaxKeepsQueue(d, vis, q, x, nd);
  }

  lemma RelaxKeepsRelaxedPart(adj: Adjacency, start: string, d: map<string, int>, vis: map<string, bool>,
                              prev: map<string, string>, q: multiset<Entry>, order: map<string, nat>, clock: nat,
                              cur: string, n: nat, x: string, w: int, nd: int)
    requires cur in d && IsVisited(vis, cur)
    requires AllRelaxedBut(adj, d, vis, cur) && RelaxedUpTo(adj, d, cur, n)
    requires n < |Neighbors(adj, cur)| && Neighbors(adj, cur)[n] == Edge(x, w)
    requires x in d && !IsVisited(vis, x) && d[cur] + w < d[x]
    requires nd == d[cur] + w
    ensures AllRelaxedBut(adj, d[x := nd], vis, cur)
    ensures RelaxedUpTo(adj, d[x := nd], cur, n + 1)
  {
    RelaxKeepsRelaxed(adj, d, vis, cur, n, x, nd);
  }

  lemma RelaxKeepsPredPart(adj: Adjacency, start: string, d: map<string, int>, vis: map<string, bool>,
                           prev: map<string, string>, q: multiset<Entry>, order: map<string, nat>, clock: nat,
                           cur: string, n: nat, x: string, w: int, nd: int)
    requires cur in d && IsVisited(vis, cur)
    requires Domains(adj, start, d, vis, prev) && PredInv(adj, start, d, vis, prev, order, clock)
    requires n < |Neighbors(adj, cur)| && Neighbors(adj, cur)[n] == Edge(x, w)
    requires x in d && !IsVisited(vis, x) && d[cur] + w < d[x]
    requires nd == d[cur] + w
    ensures PredInv(adj, start, d[x := nd], vis, prev[x := cur], order, clock)
  {
    RelaxKeepsPred(adj, start, d, vis, prev, order, clock, cur, n, x, nd);
  }

  /** Relaxing the `n`-th edge out of `cur`, to an unvisited `x` it brings closer. */
  lemma RelaxKeeps(adj: Adjacency, start: string, d: map<string, int>, vis: map<string, bool>,
                   prev: map<string, string>, q: multiset<Entry>, order: map<string, nat>, clock: nat,
                   cur: string, n: nat, x: string, w: int, nd: int)
    requires CanRelax(adj, start, d, vis, prev, q, order, clock, cur, n, x, w, nd)
    ensures Expanding(adj, start, d[x := nd], vis, prev[x := cur],
                      q + multiset{Entry(x, nd)}, order, clock, cur, n + 1)
  {
    RelaxKeepsDomainsPart(adj, start, d, vis, prev, q, order, clock, cur, n, x, w, nd);
    RelaxKeepsQueuePart(adj, start, d, vis, prev, q, order, clock, cur, n, x, w, nd);
    RelaxKeepsRelaxedPart(adj, start, d, vis, prev, q, order, clock, cur, n, x, w, nd);
    RelaxKeepsPredPart(adj, start, d, vis, prev, q, order, clock, cur, n, x, w, nd);
  }

  /** Passing over the `n`-th edge out of `cur`: its end is visited, or it brings it no closer. */
  lemma SkipKeeps(adj: Adjacency, start: string, d: map<string, int>, vis: map<string, bool>,
                  prev: map<string, string>, q: multiset<Entry>, order: map<string, nat>, clock: nat,
                  cur: string, n: nat, x: string, w: int)
    requires Symmetric(adj) && NonNegative(adj)
    requires Expanding(adj, start, d, vis, prev, q, order, clock, cur, n)
    requires n < |Neighbors(adj, cur)| && Neighbors(adj, cur)[n] == Edge(x, w)
    requires x in d && (IsVisited(vis, x) || d[cur] + w >= d[x])
    ensures Expanding(adj, start, d, vis, prev, q, order, clock, cur, n + 1)
  {
    NeighborIsVertex(adj, cur, Edge(x, w));
    assert 0 <= w;
  }

  /** Once every edge out of `cur` is scanned, the outer invariant holds again. */
  lemma ExpandDone(adj: Adjacency, start: string, d: map<string, int>, vis: map<string, bool>,
                   prev: map<string, string>, q: multiset<Entry>, order: map<string, nat>, clock: nat, cur: string)
    requires Expanding(adj, start, d, vis, prev, q, order, clock, cur, |Neighbors(adj, cur)|)
    ensures Between(adj, start, d, vis, prev, q, order, clock, d[cur])
  {
  }

  // ---------------------------------------------------------------------
  // The two ends of the outer loop

  /** The maps `Dijkstra` builds before its loop, with `start` queued at distance 0. */
  lemma InitialBetween(adj: Adjacency, start: string, d: map<string, int>, vis: map<string, bool>)
    requires d.Keys == adj.Keys + {start} && d[start] == 0
    requires forall v :: v in adj && v != start ==> d[v] == MaxInt32
    requires vis.Keys == adj.Keys && forall v :: v in adj ==> !vis[v]
    ensures Between(adj, start, d, vis, map[], multiset{Entry(start, 0)}, map[], 0, 0)
  {
    forall v | v in d
      ensures 0 <= d[v] <= MaxInt32
    {
      if v != start {
        assert d[v] == MaxInt32;
      }
    }
    assert forall v :: v in d && d[v] < MaxInt32 ==> v == start;
  }

  /** With the queue empty, a vertex is visited exactly when it was reached. */
  lemma FinishReached(d: map<string, int>, vis: map<string, bool>, b: int)
    requires QueueInv(d, vis, multiset{}) && Settled(d, vis, multiset{}, b)
    ensures forall v :: v in d ==> (IsVisited(vis, v) <==> d[v] < MaxInt32)
  {
  }

  /** Edges out of a visited vertex were relaxed; edges out of an unreached one cannot shorten anything. */
  lemma FinishFeasible(adj: Adjacency, start: string, d: map<string, int>, vis: map<string, bool>, prev: map<string, string>)
    requires Symmetric(adj) && NonNegative(adj)
    requires Domains(adj, start, d, vis, prev) && AllRelaxed(adj, d, vis)
    requires forall v :: v in d ==> (IsVisited(vis, v) <==> d[v] < MaxInt32)
    ensures Feasible(adj, d)
  {
    forall u, e | u in adj && e in adj[u]
      ensures u in d && e.to in d && d[e.to] <= d[u] + e.weight
    {
      NeighborIsVertex(adj, u, e);
      if IsVisited(vis, u) {
        assert RelaxedFrom(adj, d, u);
        var k :| 0 <= k < |adj[u]| && adj[u][k] == e;
      }
    }
  }

  /** A vertex numbered at most `n` by `order` reaches a root of `prev` within `n` hops. */
  lemma {:induction false} ChainFromOrder(prev: map<string, string>, order: map<string, nat>, v: string, n: nat)
    requires PredOrdered(prev, order)
    requires forall u :: u in prev ==> u in order
    requires v in order ==> order[v] <= n
    ensures ChainEnds(prev, v, n)
    decreases n
  {
    if v in prev {
      ChainFromOrder(prev, order, prev[v], n - 1);
    }
  }

  /** The invariant with the queue empty yields the final guarantees. */
  lemma Finish(adj: Adjacency, start: string, d: map<string, int>, vis: map<string, bool>,
               prev: map<string, string>, order: map<string, nat>, clock: nat, b: int)
    requires Symmetric(adj) && NonNegative(adj)
    requires Between(adj, start, d, vis, prev, multiset{}, order, clock, b)
    ensures IsFinal(adj, start, Step(d, vis, "", prev, [], Complete))
  {
    FinishReached(d, vis, b);
    FinishFeasible(adj, start, d, vis, prev);
    forall v | v in d
      ensures exists n :: ChainEnds(prev, v, n)
    {
      if v in order {
        ChainFromOrder(prev, order, v, order[v]);
      } else {
        ChainFromOrder(prev, order, v, 0);
      }
    }
  }

  // ---------------------------------------------------------------------
  // The engine

  function Last(steps: seq<Step>): Step
    requires steps != []
  {
    steps[|steps| - 1]
  }

  /** The live maps coincide with those of the snapshot `s`. */
  predicate Shows(s: Step, d: map<string, int>, vis: map<string, bool>, prev: map<string, string>)
  {
    s.distances == d && s.visited == vis && s.previousVertex == prev
  }

  /** A snapshot: the three maps are copied, the list of explorations is shared. */
  method Snapshot(d: map<string, int>, vis: map<string, bool>, current: string, prev: map<string, string>,
                  exploring: seq<EdgeExploration>, event: Event) returns (s: Step)
    ensures s == Step(d, vis, current, prev, exploring, event)
  {
    var dc := CopyMap(d);
    var vc := CopyMap(vis);
    var pc := CopyMap(prev);
    s := Step(dc, vc, current, pc, exploring, event);
  }

  // ---------------------------------------------------------------------
  // The inner loop: scanning the edges out of `cur`

  /** The snapshots taken since the `Visiting(cur)` one, which ends `steps0`, all report updates. */
  ghost predicate ScanTrace(adj: Adjacency, start: string, cur: string, d: map<string, int>, vis: map<string, bool>,
                            prev: map<string, string>, exploring: seq<EdgeExploration>, steps0: seq<Step>, steps: seq<Step>)
  {
    && Trace(adj, start, steps) && Shows(Last(steps), d, vis, prev)
    && |steps0| <= |steps| && steps[..|steps0|] == steps0
    && (forall k :: |steps0| <= k < |steps| ==> steps[k].event.Updated?)
    && Last(steps).currentVertex == cur
    && (Last(steps).event == Visiting(cur) || Last(steps).event.Updated?)
    && Last(steps).exploringEdges <= exploring
  }

  /** The invariant of the inner loop of `Dijkstra` after `i` edges out of `cur`. */
  ghost predicate ScanInv(adj: Adjacency, start: string, cur: string, d0: map<string, int>, vis: map<string, bool>,
                          steps0: seq<Step>, i: nat, d: map<string, int>, prev: map<string, string>, q: multiset<Entry>,
                          exploring: seq<EdgeExploration>, steps: seq<Step>, order: map<string, nat>, clock: nat)
  {
    && Expanding(adj, start, d, vis, prev, q, order, clock, cur, i)
    && cur in d0 && d[cur] == d0[cur]
    && exploring == Explored(cur, Neighbors(adj, cur)[..i], vis)
    && ScanTrace(adj, start, cur, d, vis, prev, exploring, steps0, steps)
  }

  lemma ScanStart(adj: Adjacency, start: string, cur: string, d0: map<string, int>, vis: map<string, bool>,
                  prev0: map<string, string>, q: multiset<Entry>, steps0: seq<Step>, order: map<string, nat>, clock: nat)
    requires Expanding(adj, start, d0, vis, prev0, q, order, clock, cur, 0)
    requires Trace(adj, start, steps0) && Last(steps0) == Step(d0, vis, cur, prev0, [], Visiting(cur))
    ensures ScanInv(adj, start, cur, d0, vis, steps0, 0, d0, prev0, q, [], steps0, order, clock)
  {
    assert steps0[..|steps0|] == steps0;
  }

  /** The `i`-th edge out of `cur` leads to a vertex with a distance. */
  lemma ScanTarget(adj: Adjacency, start: string, cur: string, d0: map<string, int>, vis: map<string, bool>,
                   steps0: seq<Step>, i: nat, d: map<string, int>, prev: map<string, string>, q: multiset<Entry>,
                   exploring: seq<EdgeExploration>, steps: seq<Step>, order: map<string, nat>, clock: nat)
    requires Symmetric(adj)
    requires ScanInv(adj, start, cur, d0, vis, steps0, i, d, prev, q, exploring, steps, order, clock)
    requires i < |Neighbors(adj, cur)|
    ensures cur in d && Neighbors(adj, cur)[i].to in d
  {
    NeighborIsVertex(adj, cur, Neighbors(adj, cur)[i]);
  }

  /** Extending the scanned prefix by one edge extends the explorations by at most that edge. */
  lemma ExploredNext(cur: string, edges: seq<Edge>, i: nat, visited: map<string, bool>)
    requires i < |edges|
    ensures Explored(cur, edges[..i + 1], visited) ==
      Explored(cur, edges[..i], visited)
        + (if IsVisited(visited, edges[i].to) then [] else [EdgeExploration(cur, edges[i].to, edges[i].weight)])
  {
    assert edges[..i + 1][..i] == edges[..i];
  }

  /** An edge into a visited vertex is skipped without a record. */
  lemma ScanSkipVisited(adj: Adjacency, start: string, cur: string, d0: map<string, int>, vis: map<string, bool>,
                        steps0: seq<Step>, i: nat, d: map<string, int>, prev: map<string, string>, q: multiset<Entry>,
                        exploring: seq<EdgeExploration>, steps: seq<Step>, order: map<string, nat>, clock: nat, x: string, w: int)
    requires Symmetric(adj) && NonNegative(adj)
    requires ScanInv(adj, start, cur, d0, vis, steps0, i, d, prev, q, exploring, steps, order, clock)
    requires i < |Neighbors(adj, cur)| && Neighbors(adj, cur)[i] == Edge(x, w)
    requires x in d && IsVisited(vis, x)
    ensures ScanInv(adj, start, cur, d0, vis, steps0, i + 1, d, prev, q, exploring, steps, order, clock)
  {
    SkipKeeps(adj, start, d, vis, prev, q, order, clock, cur, i, x, w);
    ExploredNext(cur, Neighbors(adj, cur), i, vis);
  }

  /** An edge into an unvisited vertex that it does not bring closer is recorded, nothing else. */
  lemma ScanSkipFar(adj: Adjacency, start: string, cur: string, d0: map<string, int>, vis: map<string, bool>,
                    steps0: seq<Step>, i: nat, d: map<string, int>, prev: map<string, string>, q: multiset<Entry>,
                    exploring: seq<EdgeExploration>, steps: seq<Step>, order: map<string, nat>, clock: nat, x: string, w: int)
    requires Symmetric(adj) && NonNegative(adj)
    requires ScanInv(adj, start, cur, d0, vis, steps0, i, d, prev, q, exploring, steps, order, clock)
    requires i < |Neighbors(adj, cur)| && Neighbors(adj, cur)[i] == Edge(x, w)
    requires x in d && !IsVisited(vis, x) && d[cur] + w >= d[x]
    ensures ScanInv(adj, start, cur, d0, vis, steps0, i + 1, d, prev, q,
                    exploring + [EdgeExploration(cur, x, w)], steps, order, clock)
  {
    SkipKeeps(adj, start, d, vis, prev, q, order, clock, cur, i, x, w);
    ExploredNext(cur, Neighbors(adj, cur), i, vis);
  }

  /** A prefix of `b` is a proper prefix of `b` extended by one element. */
  lemma PrefixGrows<T>(a: seq<T>, b: seq<T>, e: T)
    requires a <= b
    ensures |a| < |b + [e]| && a == (b + [e])[..|a|]
  {
    assert (b + [e])[..|a|] == b[..|a|];
  }

  /** The snapshot `t` records the relaxation of the `i`-th edge out of `cur`, to `x`, after `s`. */
  lemma RelaxUpdatedBy(adj: Adjacency, cur: string, vis: map<string, bool>, i: nat, d: map<string, int>,
                       prev: map<string, string>, exploring: seq<EdgeExploration>, s: Step,
                       x: string, w: int, nd: int, t: Step)
    requires i < |Neighbors(adj, cur)| && Neighbors(adj, cur)[i] == Edge(x, w)
    requires s.distances == d && s.visited == vis
    requires exploring == Explored(cur, Neighbors(adj, cur)[..i], vis)
    requires cur in d && x in d && !IsVisited(vis, x) && d[cur] + w < d[x]
    requires nd == d[cur] + w
    requires t.distances == d[x := nd] && t.exploringEdges == exploring + [EdgeExploration(cur, x, w)]
    ensures UpdatedBy(s, t, cur, x, Neighbors(adj, cur)[..i + 1])
  {
    ExploredNext(cur, Neighbors(adj, cur), i, vis);
  }

  /** Relaxing the `i`-th edge out of `cur`, to `x`, yields a snapshot `t` that may follow `s`. */
  lemma RelaxTransition(adj: Adjacency, cur: string, vis: map<string, bool>, i: nat, d: map<string, int>,
                        prev: map<string, string>, exploring: seq<EdgeExploration>, s: Step,
                        x: string, w: int, nd: int, t: Step)
    requires i < |Neighbors(adj, cur)| && Neighbors(adj, cur)[i] == Edge(x, w)
    requires Shows(s, d, vis, prev) && s.currentVertex == cur
    requires s.event == Visiting(cur) || s.event.Updated?
    requires s.exploringEdges <= exploring
    requires exploring == Explored(cur, Neighbors(adj, cur)[..i], vis)
    requires RelaxedUpTo(adj, d, cur, i)
    requires cur in d && IsVisited(vis, cur)
    requires x in d && !IsVisited(vis, x) && d[cur] + w < d[x]
    requires nd == d[cur] + w
    requires t == Step(d[x := nd], vis, cur, prev[x := cur], exploring + [EdgeExploration(cur, x, w)], Updated(x))
    ensures Transition(adj, s, t)
  {
    RelaxUpdatedBy(adj, cur, vis, i, d, prev, exploring, s, x, w, nd, t);
    assert 0 < i + 1 <= |Neighbors(adj, cur)| && RelaxedUpTo(adj, s.distances, cur, i + 1 - 1);
    PrefixGrows(s.exploringEdges, exploring, EdgeExploration(cur, x, w));
  }

  /** The `Updated(x)` snapshot `t` follows the last snapshot of `steps`. */
  lemma ScanTraceRelax(adj: Adjacency, start: string, cur: string, vis: map<string, bool>, steps0: seq<Step>, i: nat,
                       d: map<string, int>, prev: map<string, string>, exploring: seq<EdgeExploration>, steps: seq<Step>,
                       x: string, w: int, nd: int, t: Step)
    requires i < |Neighbors(adj, cur)| && Neighbors(adj, cur)[i] == Edge(x, w)
    requires ScanTrace(adj, start, cur, d, vis, prev, exploring, steps0, steps)
    requires exploring == Explored(cur, Neighbors(adj, cur)[..i], vis)
    requires RelaxedUpTo(adj, d, cur, i)
    requires cur in d && IsVisited(vis, cur)
    requires x in d && !IsVisited(vis, x) && d[cur] + w < d[x]
    requires nd == d[cur] + w
    requires t == Step(d[x := nd], vis, cur, prev[x := cur], exploring + [EdgeExploration(cur, x, w)], Updated(x))
    ensures ScanTrace(adj, start, cur, d[x := nd], vis, prev[x := cur],
                      exploring + [EdgeExploration(cur, x, w)], steps0, steps + [t])
  {
    RelaxTransition(adj, cur, vis, i, d, prev, exploring, Last(steps), x, w, nd, t);
    TraceAppend(adj, start, steps, t);
    ScanTraceExtend(adj, start, cur, d[x := nd], vis, prev[x := cur], exploring + [EdgeExploration(cur, x, w)],
                    steps0, steps, t);
  }

  /** Appending an `Updated` snapshot of the current vertex extends the scan's trace. */
  lemma ScanTraceExtend(adj: Adjacency, start: string, cur: string, d: map<string, int>, vis: map<string, bool>,
                        prev: map<string, string>, exploring: seq<EdgeExploration>, steps0: seq<Step>, steps: seq<Step>, t: Step)
    requires Trace(adj, start, steps + [t])
    requires |steps0| <= |steps| && steps[..|steps0|] == steps0
    requires forall k :: |steps0| <= k < |steps| ==> steps[k].event.Updated?
    requires t.event.Updated? && t.currentVertex == cur && Shows(t, d, vis, prev) && t.exploringEdges <= exploring
    ensures ScanTrace(adj, start, cur, d, vis, prev, exploring, steps0, steps + [t])
  {
    var steps' := steps + [t];
    assert steps'[..|steps0|] == steps0;
    assert Last(steps') == t;
    forall k | |steps0| <= k < |steps'|
      ensures steps'[k].event.Updated?
    {
      if k < |steps| {
        assert steps'[k] == steps[k];
      }
    }
  }

  /** An edge that brings an unvisited vertex closer is recorded, relaxed and reported. */
  lemma ScanRelax(adj: Adjacency, start: string, cur: string, d0: map<string, int>, vis: map<string, bool>,
                  steps0: seq<Step>, i: nat, d: map<string, int>, prev: map<string, string>, q: multiset<Entry>,
                  exploring: seq<EdgeExploration>, steps: seq<Step>, order: map<string, nat>, clock: nat,
                  x: string, w: int, nd: int, t: Step)
    requires Symmetric(adj) && NonNegative(adj)
    requires ScanInv(adj, start, cur, d0, vis, steps0, i, d, prev, q, exploring, steps, order, clock)
    requires i < |Neighbors(adj, cur)| && Neighbors(adj, cur)[i] == Edge(x, w)
    requires x in d && !IsVisited(vis, x) && d[cur] + w < d[x]
    requires nd == d[cur] + w
    requires t == Step(d[x := nd], vis, cur, prev[x := cur], exploring + [EdgeExploration(cur, x, w)], Updated(x))
    ensures ScanInv(adj, start, cur, d0, vis, steps0, i + 1, d[x := nd], prev[x := cur],
                    q + multiset{Entry(x, nd)}, exploring + [EdgeExploration(cur, x, w)], steps + [t], order, clock)
  {
    RelaxKeeps(adj, start, d, vis, prev, q, order, clock, cur, i, x, w, nd);
    ScanTraceRelax(adj, start, cur, vis, steps0, i, d, prev, exploring, steps, x, w, nd, t);
    ExploredNext(cur, Neighbors(adj, cur), i, vis);
  }

  lemma ScanEnd(adj: Adjacency, start: string, cur: string, d0: map<string, int>, vis: map<string, bool>,
                steps0: seq<Step>, d: map<string, int>, prev: map<string, string>, q: multiset<Entry>,
                exploring: seq<EdgeExploration>, steps: seq<Step>, order: map<string, nat>, clock: nat)
    requires ScanInv(adj, start, cur, d0, vis, steps0, |Neighbors(adj, cur)|, d, prev, q, exploring, steps, order, clock)
    ensures Between(adj, start, d, vis, prev, q, order, clock, d0[cur])
    ensures Trace(adj, start, steps) && Shows(Last(steps), d, vis, prev)
    ensures |steps0| <= |steps| && steps[..|steps0|] == steps0
    ensures forall k :: |steps0| <= k < |steps| ==> steps[k].event.Updated?
  {
    ExpandDone(adj, start, d, vis, prev, q, order, clock, cur);
  }

  /**
   * The effect of one round of the inner loop of `Dijkstra` on the edge out of
   * `cur`: an edge into a visited vertex changes nothing; any other is
   * recorded, and if it shortens the distance to its end, that distance, the
   * predecessor and the queue are updated and an `Updated` snapshot is appended.
   */
  ghost predicate EdgeScanned(cur: string, visited: map<string, bool>, edge: Edge,
                              distances: map<string, int>, previous: map<string, string>, q: multiset<Entry>,
                              exploring: seq<EdgeExploration>, steps: seq<Step>,
                              distances': map<string, int>, previous': map<string, string>, q': multiset<Entry>,
                              exploring': seq<EdgeExploration>, steps': seq<Step>)
  {
    && cur in distances && edge.to in distances
    && (IsVisited(visited, edge.to) ==>
      distances' == distances && previous' == previous && q' == q && exploring' == exploring && steps' == steps)
    && (!IsVisited(visited, edge.to) ==> exploring' == exploring + [EdgeExploration(cur, edge.to, edge.weight)])
    && (!IsVisited(visited, edge.to) && distances[cur] + edge.weight < distances[edge.to] ==>
      && distances' == distances[edge.to := distances[cur] + edge.weight]
      && previous' == previous[edge.to := cur]
      && q' == q + multiset{Entry(edge.to, distances[cur] + edge.weight)}
      && steps' == steps + [Step(distances', visited, cur, previous', exploring', Updated(edge.to))])
    && (!IsVisited(visited, edge.to) && distances[cur] + edge.weight >= distances[edge.to] ==>
      distances' == distances && previous' == previous && q' == q && steps' == steps)
  }

  /**
   * One round of the inner loop of `Dijkstra`: the `i`-th edge out of `cur` is
   * skipped if it leads to a visited vertex, and recorded otherwise; if it
   * shortens the distance to its end, that distance, the predecessor and the
   * queue are updated and an `Updated` snapshot is appended.
   */
  method ScanEdge(ghost adj: Adjacency, ghost start: string, cur: string, edge: Edge, ghost d0: map<string, int>,
                  visited: map<string, bool>, ghost steps0: seq<Step>, i: nat,
                  distances: map<string, int>, previous: map<string, string>, pq: PriorityQueue, ghost q: multiset<Entry>,
                  exploring: seq<EdgeExploration>, steps: seq<Step>, ghost order: map<string, nat>, ghost clock: nat)
    returns (distances': map<string, int>, previous': map<string, string>, ghost q': multiset<Entry>,
             exploring': seq<EdgeExploration>, steps': seq<Step>)
    requires Symmetric(adj) && NonNegative(adj) && pq.Valid() && q == pq.Contents()
    requires i < |Neighbors(adj, cur)| && Neighbors(adj, cur)[i] == edge
    requires ScanInv(adj, start, cur, d0, visited, steps0, i, distances, previous, q, exploring, steps, order, clock)
    modifies pq
    ensures pq.Valid() && q' == pq.Contents()
    ensures ScanInv(adj, start, cur, d0, visited, steps0, i + 1, distances', previous', q', exploring', steps', order, clock)
    ensures EdgeScanned(cur, visited, edge, distances, previous, q, exploring, steps,
                        distances', previous', q', exploring', steps')
  {
    ScanTarget(adj, start, cur, d0, visited, steps0, i, distances, previous, q, exploring, steps, order, clock);
    if IsVisited(visited, edge.to) {
      ScanSkipVisited(adj, start, cur, d0, visited, steps0, i, distances, previous, q, exploring, steps, order, clock,
                      edge.to, edge.weight);
      distances', previous', q', exploring', steps' := distances, previous, q, exploring, steps;
    } else {
      distances', previous', q', exploring', steps' :=
        Relax(adj, start, cur, edge, d0, visited, steps0, i, distances, previous, pq, q, exploring, steps, order, clock);
    }
  }

  /**
   * The unvisited case of `ScanEdge`: the edge is recorded, and relaxed with an
   * `Updated` snapshot exactly when it shortens the distance to its end.
   */
  method Relax(ghost adj: Adjacency, ghost start: string, cur: string, edge: Edge, ghost d0: map<string, int>,
               visited: map<string, bool>, ghost steps0: seq<Step>, i: nat,
               distances: map<string, int>, previous: map<string, string>, pq: PriorityQueue, ghost q: multiset<Entry>,
               exploring: seq<EdgeExploration>, steps: seq<Step>, ghost order: map<string, nat>, ghost clock: nat)
    returns (distances': map<string, int>, previous': map<string, string>, ghost q': multiset<Entry>,
             exploring': seq<EdgeExploration>, steps': seq<Step>)
    requires Symmetric(adj) && NonNegative(adj) && pq.Valid() && q == pq.Contents()
    requires i < |Neighbors(adj, cur)| && Neighbors(adj, cur)[i] == edge
    requires ScanInv(adj, start, cur, d0, visited, steps0, i, distances, previous, q, exploring, steps, order, clock)
    requires cur in distances && edge.to in distances && !IsVisited(visited, edge.to)
    modifies pq
    ensures pq.Valid() && q' == pq.Contents()
    ensures ScanInv(adj, start, cur, d0, visited, steps0, i + 1, distances', previous', q', exploring', steps', order, clock)
    ensures exploring' == exploring + [EdgeExploration(cur, edge.to, edge.weight)]
    ensures distances[cur] + edge.weight < distances[edge.to] ==>
      && distances' == distances[edge.to := distances[cur] + edge.weight]
      && previous' == previous[edge.to := cur]
      && q' == q + multiset{Entry(edge.to, distances[cur] + edge.weight)}
      && steps' == steps + [Step(distances', visited, cur, previous', exploring', Updated(edge.to))]
    ensures distances[cur] + edge.weight >= distances[edge.to] ==>
      distances' == distances && previous' == previous && q' == q && steps' == steps
  {
    var newDist := distances[cur] + edge.weight;
    exploring' := exploring + [EdgeExploration(cur, edge.to, edge.weight)];
    if newDist < distances[edge.to] {
      var t := Snapshot(distances[edge.to := newDist], visited, cur, previous[edge.to := cur], exploring', Updated(edge.to));
      ScanRelax(adj, start, cur, d0, visited, steps0, i, distances, previous, q, exploring, steps, order, clock,
                edge.to, edge.weight, newDist, t);
      distances' := distances[edge.to := newDist];
      previous' := previous[edge.to := cur];
      pq.Insert(edge.to, newDist);
      q' := q + multiset{Entry(edge.to, newDist)};
      steps' := steps + [t];
    } else {
      ScanSkipFar(adj, start, cur, d0, visited, steps0, i, distances, previous, q, exploring, steps, order, clock,
                  edge.to, edge.weight);
      distances', previous', q', steps' := distances, previous, q, steps;
    }
  }

  /** The state the inner loop of `Dijkstra` changes: maps, queue contents, explorations and steps. */
  datatype Scan = Scan(distances: map<string, int>, previous: map<string, string>, queue: multiset<Entry>,
                       exploring: seq<EdgeExploration>, steps: seq<Step>)

  /**
   * One round of the inner loop as Go writes it, on `e` out of `cur`: an edge
   * into a visited vertex changes nothing; any other is recorded, and if it
   * shortens the distance to its end (a missing entry reads as Go's zero),
   * that distance and predecessor are set, the end is pushed and an
   * `Updated` snapshot is taken.
   */
  ghost function ScanStep(cur: string, visited: map<string, bool>, st: Scan, e: Edge): Scan
  {
    if IsVisited(visited, e.to) then st
    else
      var newDist := Get(st.distances, cur, 0) + e.weight;
      var exploring := st.exploring + [EdgeExploration(cur, e.to, e.weight)];
      if newDist < Get(st.distances, e.to, 0) then
        var d, p := st.distances[e.to := newDist], st.previous[e.to := cur];
        Scan(d, p, st.queue + multiset{Entry(e.to, newDist)}, exploring,
             st.steps + [Step(d, visited, cur, p, exploring, Updated(e.to))])
      else
        st.(exploring := exploring)
  }

  /** The inner loop over `edges`, in order, from the state `st`. */
  ghost function ScanAll(cur: string, visited: map<string, bool>, st: Scan, edges: seq<Edge>): Scan
    decreases |edges|
  {
    if edges == [] then st
    else ScanStep(cur, visited, ScanAll(cur, visited, st, edges[..|edges| - 1]), edges[|edges| - 1])
  }

  lemma ScanAllNext(cur: string, visited: map<string, bool>, st: Scan, edges: seq<Edge>, i: nat)
    requires i < |edges|
    ensures ScanAll(cur, visited, st, edges[..i + 1]) == ScanStep(cur, visited, ScanAll(cur, visited, st, edges[..i]), edges[i])
  {
    assert edges[..i + 1][..i] == edges[..i];
  }

  /** What `ScanEdge` promises is exactly one `ScanStep`. */
  lemma ScanEdgeIsStep(cur: string, visited: map<string, bool>, edge: Edge,
                       distances: map<string, int>, previous: map<string, string>, q: multiset<Entry>,
                       exploring: seq<EdgeExploration>, steps: seq<Step>,
                       distances': map<string, int>, previous': map<string, string>, q': multiset<Entry>,
                       exploring': seq<EdgeExploration>, steps': seq<Step>)
    requires EdgeScanned(cur, visited, edge, distances, previous, q, exploring, steps,
                         distances', previous', q', exploring', steps')
    ensures Scan(distances', previous', q', exploring', steps') ==
      ScanStep(cur, visited, Scan(distances, previous, q, exploring, steps), edge)
  {
  }

  /**
   * A round of the inner loop of `Dijkstra` seen from its start: after the
   * `i`-th edge, the state is `ScanAll` of the first `i + 1` edges.
   */
  method ScanNext(ghost adj: Adjacency, ghost start: string, cur: string, edges: seq<Edge>, ghost st0: Scan,
                  ghost d0: map<string, int>, visited: map<string, bool>, ghost steps0: seq<Step>, i: nat,
                  distances: map<string, int>, previous: map<string, string>, pq: PriorityQueue, ghost q: multiset<Entry>,
                  exploring: seq<EdgeExploration>, steps: seq<Step>, ghost order: map<string, nat>, ghost clock: nat)
    returns (distances': map<string, int>, previous': map<string, string>, ghost q': multiset<Entry>,
             exploring': seq<EdgeExploration>, steps': seq<Step>)
    requires Symmetric(adj) && NonNegative(adj) && pq.Valid() && q == pq.Contents()
    requires edges == Neighbors(adj, cur) && i < |edges|
    requires ScanInv(adj, start, cur, d0, visited, steps0, i, distances, previous, q, exploring, steps, order, clock)
    requires Scan(distances, previous, q, exploring, steps) == ScanAll(cur, visited, st0, edges[..i])
    modifies pq
    ensures pq.Valid() && q' == pq.Contents()
    ensures ScanInv(adj, start, cur, d0, visited, steps0, i + 1, distances', previous', q', exploring', steps', order, clock)
    ensures Scan(distances', previous', q', exploring', steps') == ScanAll(cur, visited, st0, edges[..i + 1])
  {
    distances', previous', q', exploring', steps' :=
      ScanEdge(adj, start, cur, edges[i], d0, visited, steps0, i, distances, previous, pq, q, exploring, steps, order, clock);
    ScanEdgeIsStep(cur, visited, edges[i], distances, previous, q, exploring, steps,
                   distances', previous', q', exploring', steps');
    ScanAllNext(cur, visited, st0, edges, i);
  }

  /**
   * The inner loop of `Dijkstra`: scans the edges out of `cur` in order. Its
   * result is `ScanAll` of those edges, and the scan invariant covers them all.
   */
  method ScanEdges(ghost adj: Adjacency, ghost start: string, cur: string, edges: seq<Edge>,
                   d0: map<string, int>, visited: map<string, bool>, prev0: map<string, string>,
                   pq: PriorityQueue, ghost q0: multiset<Entry>, steps0: seq<Step>, ghost order: map<string, nat>, ghost clock: nat)
    returns (distances: map<string, int>, previous: map<string, string>, ghost q: multiset<Entry>,
             exploring: seq<EdgeExploration>, steps: seq<Step>)
    requires Symmetric(adj) && NonNegative(adj) && pq.Valid() && q0 == pq.Contents()
    requires edges == Neighbors(adj, cur)
    requires ScanInv(adj, start, cur, d0, visited, steps0, 0, d0, prev0, q0, [], steps0, order, clock)
    modifies pq
    ensures pq.Valid() && q == pq.Contents()
    ensures ScanInv(adj, start, cur, d0, visited, steps0, |edges|, distances, previous, q, exploring, steps, order, clock)
    ensures Scan(distances, previous, q, exploring, steps) == ScanAll(cur, visited, Scan(d0, prev0, q0, [], steps0), edges)
  {
    exploring := [];
    distances, previous, q, steps := d0, prev0, q0, steps0;
    ghost var st0 := Scan(d0, prev0, q0, [], steps0);
    var i := 0;
    assert edges[..0] == [];
    while i < |edges|
      invariant i <= |edges| && pq.Valid() && q == pq.Contents()
      invariant Scan(distances, previous, q, exploring, steps) == ScanAll(cur, visited, st0, edges[..i])
      invariant ScanInv(adj, start, cur, d0, visited, steps0, i, distances, previous, q, exploring, steps, order, clock)
    {
      distances, previous, q, exploring, steps :=
        ScanNext(adj, start, cur, edges, st0, d0, visited, steps0, i, distances, previous, pq, q, exploring, steps, order, clock);
      i := i + 1;
    }
    assert edges[..i] == edges;
  }

  /**
   * The visit's scan: the edges out of `cur` are scanned in order, which
   * leaves the invariant of the outer loop, with `cur` the vertex settled
   * last, and exactly the maps, queue and steps of `ScanAll`.
   */
  method Expand(g: Graph, ghost adj: Adjacency, ghost start: string, cur: string,
                d0: map<string, int>, visited: map<string, bool>, prev0: map<string, string>,
                pq: PriorityQueue, ghost q0: multiset<Entry>, steps0: seq<Step>, ghost order: map<string, nat>, ghost clock: nat)
    returns (distances: map<string, int>, previous: map<string, string>, ghost q: multiset<Entry>, steps: seq<Step>)
    requires g.Valid() && adj == g.vertices && NonNegative(adj) && pq.Valid() && q0 == pq.Contents()
    requires Expanding(adj, start, d0, visited, prev0, q0, order, clock, cur, 0)
    requires Trace(adj, start, steps0)
    requires Last(steps0) == Step(d0, visited, cur, prev0, [], Visiting(cur))
    modifies pq
    ensures pq.Valid() && q == pq.Contents()
    ensures Between(adj, start, distances, visited, previous, q, order, clock, d0[cur])
    ensures Trace(adj, start, steps) && Shows(Last(steps), distances, visited, previous)
    ensures |steps0| <= |steps| && steps[..|steps0|] == steps0
    ensures forall k :: |steps0| <= k < |steps| ==> steps[k].event.Updated?
    ensures var r := ScanAll(cur, visited, Scan(d0, prev0, q0, [], steps0), Neighbors(adj, cur));
      distances == r.distances && previous == r.previous && q == r.queue && steps == r.steps
  {
    var edges := g.GetNeighbors(cur);
    ScanStart(adj, start, cur, d0, visited, prev0, q0, steps0, order, clock);
    var exploring;
    distances, previous, q, exploring, steps := ScanEdges(adj, start, cur, edges, d0, visited, prev0, pq, q0, steps0, order, clock);
    ScanEnd(adj, start, cur, d0, visited, steps0, distances, previous, q, exploring, steps, order, clock);
  }

  // ---------------------------------------------------------------------
  // The outer loop

  /** The events after the initial snapshot: first the visit of `start`, then visits and updates. */
  ghost predicate StepsShape(start: string, steps: seq<Step>)
  {
    && (|steps| >= 2 ==> steps[1].event == Visiting(start))
    && (forall k :: 1 <= k < |steps| ==> steps[k].event.Visiting? || steps[k].event.Updated?)
  }

  /** The invariant of the outer loop of `Dijkstra`. */
  ghost predicate RunInv(adj: Adjacency, start: string, d: map<string, int>, vis: map<string, bool>,
                         prev: map<string, string>, q: multiset<Entry>, order: map<string, nat>, clock: nat, b: int,
                         steps: seq<Step>)
  {
    && Between(adj, start, d, vis, prev, q, order, clock, b)
    && Trace(adj, start, steps) && Shows(Last(steps), d, vis, prev)
    && (|steps| == 1 ==> q == multiset{Entry(start, 0)} && !IsVisited(vis, start))
    && StepsShape(start, steps)
  }

  /**
   * The vertices among `vs` not visited yet. With `vs` the vertices of the
   * graph and `start`, it shrinks with every visit, which ends the outer loop.
   */
  ghost function Unvisited(vs: set<string>, vis: map<string, bool>): set<string>
  {
    set v | v in vs && !IsVisited(vis, v)
  }

  lemma RunStart(adj: Adjacency, start: string, d: map<string, int>, vis: map<string, bool>, t: Step)
    requires d.Keys == adj.Keys + {start} && d[start] == 0
    requires forall v :: v in adj && v != start ==> d[v] == MaxInt32
    requires vis.Keys == adj.Keys && forall v :: v in adj ==> !vis[v]
    requires t == Step(d, vis, start, map[], [], Initial)
    ensures IsInitial(adj, start, t)
    ensures RunInv(adj, start, d, vis, map[], multiset{Entry(start, 0)}, map[], 0, 0, [t])
  {
    InitialBetween(adj, start, d, vis);
  }

  /** Popping an entry of a visited vertex: nothing but the queue changes. */
  lemma RunStale(adj: Adjacency, start: string, d: map<string, int>, vis: map<string, bool>,
                 prev: map<string, string>, q: multiset<Entry>, order: map<string, nat>, clock: nat, b: int,
                 steps: seq<Step>, e: Entry)
    requires RunInv(adj, start, d, vis, prev, q, order, clock, b, steps)
    requires e in q && IsVisited(vis, e.vertex)
    ensures RunInv(adj, start, d, vis, prev, q - multiset{e}, order, clock, b, steps)
  {
    StaleKeeps(adj, start, d, vis, prev, q, order, clock, b, e);
  }

  /**
   * The vertex of a `Visiting` or `Updated` snapshot is visited in it, so once
   * every visited vertex is relaxed its scan is done.
   */
  lemma LastScanDone(adj: Adjacency, start: string, steps: seq<Step>, d: map<string, int>, vis: map<string, bool>,
                     prev: map<string, string>)
    requires Trace(adj, start, steps) && Shows(Last(steps), d, vis, prev) && AllRelaxed(adj, d, vis)
    ensures ScanDone(adj, Last(steps))
  {
    var s := Last(steps);
    if s.event.Visiting? || s.event.Updated? {
      assert Transition(adj, steps[|steps| - 2], steps[|steps| - 1]);
    }
  }

  /** The `Visiting` snapshot `t` of the greedy choice `v` extends the trace. */
  lemma RunVisitTrace(adj: Adjacency, start: string, d: map<string, int>, vis: map<string, bool>,
                      prev: map<string, string>, steps: seq<Step>, v: string, t: Step)
    requires Trace(adj, start, steps) && Shows(Last(steps), d, vis, prev) && StepsShape(start, steps)
    requires AllRelaxed(adj, d, vis)
    requires |steps| == 1 ==> v == start
    requires v in d && !IsVisited(vis, v) && d[v] < MaxInt32
    requires forall y :: y in d && !IsVisited(vis, y) ==> d[v] <= d[y]
    requires t == Step(d, vis[v := true], v, prev, [], Visiting(v))
    ensures Trace(adj, start, steps + [t]) && Last(steps + [t]) == t
    ensures StepsShape(start, steps + [t]) && |steps + [t]| >= 2
  {
    LastScanDone(adj, start, steps, d, vis, prev);
    TraceAppend(adj, start, steps, t);
    var steps' := steps + [t];
    forall k | 1 <= k < |steps'|
      ensures steps'[k].event.Visiting? || steps'[k].event.Updated?
    {
      if k < |steps| {
        assert steps'[k] == steps[k];
      }
    }
  }

  /** Popping the least entry `e` of an unvisited vertex: it is marked visited and reported by `t`. */
  lemma RunVisit(adj: Adjacency, start: string, d: map<string, int>, vis: map<string, bool>,
                 prev: map<string, string>, q: multiset<Entry>, order: map<string, nat>, clock: nat, b: int,
                 steps: seq<Step>, e: Entry, t: Step)
    requires RunInv(adj, start, d, vis, prev, q, order, clock, b, steps)
    requires e in q && !IsVisited(vis, e.vertex)
    requires forall f :: f in q - multiset{e} ==> e.distance <= f.distance
    requires t == Step(d, vis[e.vertex := true], e.vertex, prev, [], Visiting(e.vertex))
    ensures e.vertex in d
    ensures Unvisited(adj.Keys + {start}, vis[e.vertex := true]) < Unvisited(adj.Keys + {start}, vis)
    ensures Expanding(adj, start, d, vis[e.vertex := true], prev, q - multiset{e}, order[e.vertex := clock], clock + 1, e.vertex, 0)
    ensures Trace(adj, start, steps + [t]) && Last(steps + [t]) == t
    ensures StepsShape(start, steps + [t]) && |steps + [t]| >= 2
  {
    VisitKeeps(adj, start, d, vis, prev, q, order, clock, b, e);
    RunVisitTrace(adj, start, d, vis, prev, steps, e.vertex, t);
    assert e.vertex in Unvisited(adj.Keys + {start}, vis);
  }


  /** After the expansion of the vertex just visited, the outer invariant holds again. */
  lemma RunResume(adj: Adjacency, start: string, d: map<string, int>, vis: map<string, bool>,
                  prev: map<string, string>, q: multiset<Entry>, order: map<string, nat>, clock: nat, b: int,
                  steps1: seq<Step>, steps: seq<Step>)
    requires Between(adj, start, d, vis, prev, q, order, clock, b)
    requires Trace(adj, start, steps) && Shows(Last(steps), d, vis, prev)
    requires StepsShape(start, steps1) && |steps1| >= 2
    requires |steps1| <= |steps| && steps[..|steps1|] == steps1
    requires forall k :: |steps1| <= k < |steps| ==> steps[k].event.Updated?
    ensures RunInv(adj, start, d, vis, prev, q, order, clock, b, steps)
  {
    assert steps[1] == steps1[1];
    forall k | 1 <= k < |steps|
      ensures steps[k].event.Visiting? || steps[k].event.Updated?
    {
      if k < |steps1| {
        assert steps[k] == steps1[k];
      }
    }
  }

  /** With the queue empty, the `Complete` snapshot `t` ends the trace with the final guarantees. */
  lemma RunFinish(adj: Adjacency, start: string, d: map<string, int>, vis: map<string, bool>,
                  prev: map<string, string>, order: map<string, nat>, clock: nat, b: int,
                  steps: seq<Step>, t: Step)
    requires Symmetric(adj) && NonNegative(adj)
    requires RunInv(adj, start, d, vis, prev, multiset{}, order, clock, b, steps)
    requires t == Step(d, vis, "", prev, [], Complete)
    ensures Trace(adj, start, steps + [t]) && IsFinal(adj, start, t)
    ensures |steps + [t]| >= 3 && (steps + [t])[1].event == Visiting(start)
    ensures forall k :: 0 < k < |steps| ==> (steps + [t])[k].event.Visiting? || (steps + [t])[k].event.Updated?
  {
    LastScanDone(adj, start, steps, d, vis, prev);
    TraceAppend(adj, start, steps, t);
    Finish(adj, start, d, vis, prev, order, clock, b);
  }

  /** The initialisation of `Dijkstra`: every vertex unreached and unvisited, `start` at distance 0. */
  method InitMaps(g: Graph, start: string) returns (distances: map<string, int>, visited: map<string, bool>)
    requires g.Valid()
    ensures distances.Keys == g.vertices.Keys + {start} && distances[start] == 0
    ensures forall v :: v in g.vertices && v != start ==> distances[v] == MaxInt32
    ensures visited.Keys == g.vertices.Keys && forall v :: v in g.vertices ==> !visited[v]
  {
    distances, visited := map[], map[];
    var vs := g.GetAllVertices();
    for k := 0 to |vs|
      invariant distances.Keys == visited.Keys == set v | v in vs[..k]
      invariant forall v :: v in distances ==> distances[v] == MaxInt32 && !visited[v]
    {
      distances := distances[vs[k] := MaxInt32];
      visited := visited[vs[k] := false];
    }
    assert vs[..|vs|] == vs;
    distances := distances[start := 0];
  }

  /**
   * The pop of the least entry `e` of an unvisited vertex `v`: `v` is marked
   * visited and reported, and its edges are scanned.
   */
  method Visit(g: Graph, ghost adj: Adjacency, ghost start: string, v: string, distances: map<string, int>,
               visited: map<string, bool>, previous: map<string, string>, pq: PriorityQueue, ghost q: multiset<Entry>,
               ghost e: Entry, ghost order: map<string, nat>, ghost clock: nat, ghost b: int, steps: seq<Step>)
    returns (distances': map<string, int>, visited': map<string, bool>, previous': map<string, string>,
             ghost q': multiset<Entry>, ghost order': map<string, nat>, ghost clock': nat, ghost b': int,
             steps': seq<Step>)
    requires g.Valid() && adj == g.vertices && NonNegative(adj) && pq.Valid() && q - multiset{e} == pq.Contents()
    requires RunInv(adj, start, distances, visited, previous, q, order, clock, b, steps)
    requires e in q && e.vertex == v && !IsVisited(visited, v)
    requires forall f :: f in q - multiset{e} ==> e.distance <= f.distance
    modifies pq
    ensures pq.Valid() && q' == pq.Contents()
    ensures RunInv(adj, start, distances', visited', previous', q', order', clock', b', steps')
    ensures Unvisited(adj.Keys + {start}, visited') < Unvisited(adj.Keys + {start}, visited)
    ensures visited' == visited[v := true]
    ensures |steps| < |steps'| && steps'[..|steps|] == steps
    ensures steps'[|steps|] == Step(distances, visited[v := true], v, previous, [], Visiting(v))
    ensures forall k :: |steps| < k < |steps'| ==> steps'[k].event.Updated?
  {
    var t := Snapshot(distances, visited[v := true], v, previous, [], Visiting(v));
    RunVisit(adj, start, distances, visited, previous, q, order, clock, b, steps, e, t);
    visited' := visited[v := true];
    order', clock', b' := order[v := clock], clock + 1, distances[v];
    var steps1 := steps + [t];
    distances', previous', q', steps' :=
      Expand(g, adj, start, v, distances, visited', previous, pq, q - multiset{e}, steps1, order', clock');
    RunResume(adj, start, distances', visited', previous', q', order', clock', b', steps1, steps');
    VisitPrefix(steps, t, steps');
  }

  /** The steps after a visit begin with the steps before it and the `Visiting` snapshot `t`. */
  lemma VisitPrefix(steps: seq<Step>, t: Step, steps': seq<Step>)
    requires |steps + [t]| <= |steps'| && steps'[..|steps + [t]|] == steps + [t]
    ensures |steps| < |steps'| && steps'[..|steps|] == steps && steps'[|steps|] == t
  {
    assert steps'[..|steps|] == (steps + [t])[..|steps|];
  }

  lemma PrefixTransitive<T>(a: seq<T>, b: seq<T>, c: seq<T>)
    requires |a| <= |b| && b[..|a|] == a
    requires |b| <= |c| && c[..|b|] == b
    ensures |a| <= |c| && c[..|a|] == a
  {
    assert c[..|a|] == c[..|b|][..|a|];
  }

  /**
   * One round of the outer loop: pop the least entry, whose vertex is
   * `popped`; an entry of a visited vertex is dropped without a snapshot and
   * without any other change, otherwise the vertex is visited.
   */
  method Round(g: Graph, ghost adj: Adjacency, ghost start: string, distances: map<string, int>, visited: map<string, bool>,
               previous: map<string, string>, pq: PriorityQueue, ghost q: multiset<Entry>,
               ghost order: map<string, nat>, ghost clock: nat, ghost b: int, steps: seq<Step>)
    returns (distances': map<string, int>, visited': map<string, bool>, previous': map<string, string>,
             ghost q': multiset<Entry>, ghost order': map<string, nat>, ghost clock': nat, ghost b': int,
             steps': seq<Step>, popped: string)
    requires g.Valid() && adj == g.vertices && NonNegative(adj) && pq.Valid() && q == pq.Contents() && q != multiset{}
    requires RunInv(adj, start, distances, visited, previous, q, order, clock, b, steps)
    modifies pq
    ensures pq.Valid() && q' == pq.Contents()
    ensures RunInv(adj, start, distances', visited', previous', q', order', clock', b', steps')
    ensures IsVisited(visited, popped) ==>
      distances' == distances && visited' == visited && previous' == previous && steps' == steps && |q'| < |q|
    ensures !IsVisited(visited, popped) ==> Unvisited(adj.Keys + {start}, visited') < Unvisited(adj.Keys + {start}, visited)
    ensures exists e :: e in q && e.vertex == popped && forall f :: f in q ==> e.distance <= f.distance
    ensures !IsVisited(visited, popped) ==>
      visited' == visited[popped := true] && |steps| < |steps'| && steps'[|steps|].event == Visiting(popped)
    ensures |steps| <= |steps'| && steps'[..|steps|] == steps
  {
    var r := pq.ExtractMin();
    var current := r.value;
    popped := current.vertex;
    ghost var e := current.Key();
    forall f | f in q
      ensures e.distance <= f.distance
    {
      if f != e {
        assert f in q - multiset{e};
      }
    }
    if IsVisited(visited, current.vertex) {
      RunStale(adj, start, distances, visited, previous, q, order, clock, b, steps, e);
      distances', visited', previous', q', order', clock', b', steps' :=
        distances, visited, previous, q - multiset{e}, order, clock, b, steps;
    } else {
      distances', visited', previous', q', order', clock', b', steps' :=
        Visit(g, adj, start, current.vertex, distances, visited, previous, pq, q, e, order, clock, b, steps);
    }
  }

  /** Everything before the outer loop: the initial maps, their snapshot, and the queue holding `start`. */
  method Start(g: Graph, ghost adj: Adjacency, start: string)
    returns (distances: map<string, int>, visited: map<string, bool>, previous: map<string, string>,
             pq: PriorityQueue, ghost q: multiset<Entry>, ghost order: map<string, nat>, ghost clock: nat, ghost b: int,
             steps: seq<Step>)
    requires g.Valid() && adj == g.vertices
    ensures fresh(pq) && pq.Valid() && q == pq.Contents()
    ensures steps == [Step(distances, visited, start, previous, [], Initial)] && IsInitial(adj, start, steps[0])
    ensures q == multiset{Entry(start, 0)} && previous == map[]
    ensures RunInv(adj, start, distances, visited, previous, q, order, clock, b, steps)
  {
    distances, visited := InitMaps(g, start);
    previous := map[];
    var t := Snapshot(distances, visited, start, previous, [], Initial);
    RunStart(adj, start, distances, visited, t);
    steps := [t];
    pq := new PriorityQueue();
    pq.Insert(start, 0);
    q, order, clock, b := pq.Contents(), map[], 0, 0;
  }

  /** After the outer loop: the `Complete` snapshot ends the trace. */
  method Conclude(ghost adj: Adjacency, ghost start: string, distances: map<string, int>, visited: map<string, bool>,
                  previous: map<string, string>, ghost q: multiset<Entry>, ghost order: map<string, nat>, ghost clock: nat,
                  ghost b: int, steps: seq<Step>)
    returns (steps': seq<Step>)
    requires Symmetric(adj) && NonNegative(adj) && q == multiset{}
    requires RunInv(adj, start, distances, visited, previous, q, order, clock, b, steps)
    ensures Trace(adj, start, steps')
    ensures |steps'| >= 3 && steps'[1].event == Visiting(start) && Last(steps').event == Complete
    ensures forall k :: 0 < k < |steps'| - 1 ==> steps'[k].event.Visiting? || steps'[k].event.Updated?
    ensures IsFinal(adj, start, Last(steps'))
  {
    var t := Snapshot(distances, visited, "", previous, [], Complete);
    RunFinish(adj, start, distances, visited, previous, order, clock, b, steps, t);
    steps' := steps + [t];
  }

  /** The outer loop: pop until the queue is empty. */
  method Drain(g: Graph, ghost adj: Adjacency, ghost start: string, distances: map<string, int>, visited: map<string, bool>,
               previous: map<string, string>, pq: PriorityQueue, ghost q: multiset<Entry>,
               ghost order: map<string, nat>, ghost clock: nat, ghost b: int, steps: seq<Step>)
    returns (distances': map<string, int>, visited': map<string, bool>, previous': map<string, string>,
             ghost q': multiset<Entry>, ghost order': map<string, nat>, ghost clock': nat, ghost b': int,
             steps': seq<Step>)
    requires g.Valid() && adj == g.vertices && NonNegative(adj) && pq.Valid() && q == pq.Contents()
    requires RunInv(adj, start, distances, visited, previous, q, order, clock, b, steps)
    modifies pq
    ensures q' == multiset{}
    ensures RunInv(adj, start, distances', visited', previous', q', order', clock', b', steps')
    ensures |steps| <= |steps'| && steps'[..|steps|] == steps
  {
    distances', visited', previous', q', order', clock', b', steps' :=
      distances, visited, previous, q, order, clock, b, steps;
    while !pq.IsEmpty()
      invariant pq.Valid() && q' == pq.Contents()
      invariant RunInv(adj, start, distances', visited', previous', q', order', clock', b', steps')
      invariant |steps| <= |steps'| && steps'[..|steps|] == steps
      decreases Unvisited(adj.Keys + {start}, visited'), |q'|
    {
      ghost var before := steps';
      var popped;
      distances', visited', previous', q', order', clock', b', steps', popped :=
        Round(g, adj, start, distances', visited', previous', pq, q', order', clock', b', steps');
      PrefixTransitive(steps, before, steps');
    }
  }

  /**
   * `Dijkstra`: every vertex of `g` starts unreached and unvisited, `start` at
   * distance 0 in the queue; each pop of an unvisited vertex settles it and
   * scans its edges. The snapshots form a trace of the algorithm that starts
   * with the initial state, visits `start` first, and ends with a `Complete`
   * snapshot of the final maps.
   */
  method Dijkstra(g: Graph, start: string) returns (steps: seq<Step>)
    requires g.Valid() && NonNegative(g.vertices)
    ensures Trace(g.vertices, start, steps)
    ensures |steps| >= 3 && steps[1].event == Visiting(start) && Last(steps).event == Complete
    ensures forall k :: 0 < k < |steps| - 1 ==> steps[k].event.Visiting? || steps[k].event.Updated?
    ensures IsFinal(g.vertices, start, Last(steps))
  {
    ghost var adj := g.vertices;
    var distances, visited, previous, pq;
    ghost var q, order, clock, b;
    distances, visited, previous, pq, q, order, clock, b, steps := Start(g, adj, start);
    distances, visited, previous, q, order, clock, b, steps :=
      Drain(g, adj, start, distances, visited, previous, pq, q, order, clock, b, steps);
    assert adj == g.vertices;
    steps := Conclude(adj, start, distances, visited, previous, q, order, clock, b, steps);
  }
}
