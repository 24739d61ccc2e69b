/**
 * The undirected weighted graph of internal/graph/graph.go: a map from each
 * vertex to its list of outgoing half-edges, kept in insertion order.
 */
module Graphs {

  /** One half-edge, as stored in the list of its source vertex. */
  datatype Edge = Edge(to: string, weight: int)

  type Adjacency = map<string, seq<Edge>>

  /** Go's `Vertices[v]`: the list of `v`, or the empty list for a vertex never added. */
  function Neighbors(adj: Adjacency, v: string): seq<Edge>
  {
    if v in adj then adj[v] else []
  }

  /**
   * Every half-edge u -> x of weight w is mirrored by x -> u of the same weight,
   * so in particular every target is itself a vertex of the map.
   */
  ghost predicate Symmetric(adj: Adjacency)
  {
    forall u, e :: u in adj && e in adj[u] ==> e.to in adj && Edge(u, e.weight) in adj[e.to]
  }

  ghost predicate NonNegative(adj: Adjacency)
  {
    forall u, e :: u in adj && e in adj[u] ==> e.weight >= 0
  }

  /**
   * The adjacency after `AddEdge(from, to, weight)`: two appends, the second
   * one reading the list the first one wrote (which matters for a self-loop).
   */
  function WithEdge(adj: Adjacency, from: string, to: string, weight: int): (r: Adjacency)
    ensures r.Keys == adj.Keys + {from, to}
    ensures forall v :: v in adj && v != from && v != to ==> r[v] == adj[v]
    ensures from != to ==>
      r[from] == Neighbors(adj, from) + [Edge(to, weight)] &&
      r[to] == Neighbors(adj, to) + [Edge(from, weight)]
    ensures from == to ==> r[from] == Neighbors(adj, from) + [Edge(to, weight), Edge(from, weight)]
  {
    var first := adj[from := Neighbors(adj, from) + [Edge(to, weight)]];
    first[to := Neighbors(first, to) + [Edge(from, weight)]]
  }

  /** Adding an edge keeps the adjacency symmetric. */
  lemma AddEdgeKeepsSymmetric(adj: Adjacency, from: string, to: string, weight: int)
    requires Symmetric(adj)
    ensures Symmetric(WithEdge(adj, from, to, weight))
  {
    var r := WithEdge(adj, from, to, weight);
    forall u: string, e: Edge | u in r && e in r[u]
      ensures e.to in r && Edge(u, e.weight) in r[e.to]
    {
      if u in adj && e in adj[u] {
        assert Edge(u, e.weight) in adj[e.to];
        assert Edge(u, e.weight) in Neighbors(adj, e.to);
      } else if from != to && u == from {
        assert e == Edge(to, weight);
      } else if from != to && u == to {
        assert e == Edge(from, weight);
      }
    }
  }

  lemma AddEdgeKeepsNonNegative(adj: Adjacency, from: string, to: string, weight: int)
    requires NonNegative(adj) && weight >= 0
    ensures NonNegative(WithEdge(adj, from, to, weight))
  {
    var r := WithEdge(adj, from, to, weight);
    forall u: string, e: Edge | u in r && e in r[u]
      ensures e.weight >= 0
    {
      if !(u in adj && e in adj[u]) {
        assert e == Edge(to, weight) || e == Edge(from, weight);
      }
    }
  }

  /**
   * What `GetNeighbors` sees after `AddEdge`: the old list of each endpoint,
   * untouched and in order, followed by the new half-edge(s); every other
   * vertex, known or not, keeps its list. No deduplication takes place.
   */
  lemma AddEdgeNeighbors(adj: Adjacency, from: string, to: string, weight: int, v: string)
    ensures var r := WithEdge(adj, from, to, weight);
      && (v != from && v != to ==> Neighbors(r, v) == Neighbors(adj, v))
      && (from != to && v == from ==> Neighbors(r, v) == Neighbors(adj, v) + [Edge(to, weight)])
      && (from != to && v == to ==> Neighbors(r, v) == Neighbors(adj, v) + [Edge(from, weight)])
      && (from == to && v == from ==> Neighbors(r, v) == Neighbors(adj, v) + [Edge(v, weight), Edge(v, weight)])
      && Neighbors(r, v)[..|Neighbors(adj, v)|] == Neighbors(adj, v)
  {
  }

  /** A series of `AddEdge` calls, the first one outermost. */
  datatype Calls = Done | AddEdgeCall(from: string, to: string, weight: int, next: Calls)

  /** The adjacency after making each of `calls` in order. */
  function AddAll(adj: Adjacency, calls: Calls): Adjacency
    decreases calls
  {
    match calls
    case Done => adj
    case AddEdgeCall(from, to, weight, next) => AddAll(WithEdge(adj, from, to, weight), next)
  }

  /** What one `AddEdge(from, to, weight)` call appends to the list of `v`. */
  function Contribution(from: string, to: string, weight: int, v: string): seq<Edge>
  {
    (if from == v then [Edge(to, weight)] else []) + (if to == v then [Edge(from, weight)] else [])
  }

  /** The half-edges a series of calls appends to the list of `v`, in call order. */
  function Appended(calls: Calls, v: string): seq<Edge>
    decreases calls
  {
    match calls
    case Done => []
    case AddEdgeCall(from, to, weight, next) => Contribution(from, to, weight, v) + Appended(next, v)
  }

  /** The endpoints of a series of calls. */
  function Ends(calls: Calls): set<string>
    decreases calls
  {
    match calls
    case Done => {}
    case AddEdgeCall(from, to, _, next) => {from, to} + Ends(next)
  }

  lemma AddEdgeAppends(adj: Adjacency, from: string, to: string, weight: int, v: string)
    ensures Neighbors(WithEdge(adj, from, to, weight), v) == Neighbors(adj, v) + Contribution(from, to, weight, v)
  {
    AddEdgeNeighbors(adj, from, to, weight, v);
  }

  /**
   * After a series of `AddEdge` calls, the list of every vertex is its old
   * list followed by what each call appended, in call order.
   */
  lemma {:induction false} AddAllNeighbors(adj: Adjacency, calls: Calls, v: string)
    ensures Neighbors(AddAll(adj, calls), v) == Neighbors(adj, v) + Appended(calls, v)
    decreases calls
  {
    match calls
    case Done =>
    case AddEdgeCall(from, to, weight, next) =>
      var after := WithEdge(adj, from, to, weight);
      AddEdgeAppends(adj, from, to, weight, v);
      AddAllNeighbors(after, next, v);
      ConcatAssoc(Neighbors(adj, v), Contribution(from, to, weight, v), Appended(next, v));
  }

  lemma ConcatAssoc<T>(a: seq<T>, b: seq<T>, c: seq<T>)
    ensures a + b + c == a + (b + c)
  {
  }

  /** The vertices after a series of `AddEdge` calls: the old ones and every endpoint. */
  lemma {:induction false} AddAllKeys(adj: Adjacency, calls: Calls)
    ensures AddAll(adj, calls).Keys == adj.Keys + Ends(calls)
    decreases calls
  {
    match calls
    case Done =>
    case AddEdgeCall(from, to, weight, next) =>
      AddAllKeys(WithEdge(adj, from, to, weight), next);
  }

  /** One traversed half-edge of a walk. */
  datatype Hop = Hop(from: string, to: string, weight: int)

  /** `hops` follows half-edges of the graph from `a` to `b`, each from where the previous one ended. */
  ghost predicate IsWalk(adj: Adjacency, a: string, b: string, hops: seq<Hop>)
    decreases |hops|
  {
    if hops == [] then a == b
    else
      && hops[0].from == a
      && Edge(hops[0].to, hops[0].weight) in Neighbors(adj, a)
      && IsWalk(adj, hops[0].to, b, hops[1..])
  }

  function WalkWeight(hops: seq<Hop>): int
    decreases |hops|
  {
    if hops == [] then 0 else hops[0].weight + WalkWeight(hops[1..])
  }

  /** A labelling of the vertices that no half-edge can improve on: the triangle inequality. */
  ghost predicate Feasible(adj: Adjacency, p: map<string, int>)
  {
    forall u, e :: u in adj && e in adj[u] ==> u in p && e.to in p && p[e.to] <= p[u] + e.weight
  }

  /**
   * A feasible labelling never exceeds the weight of a walk: the label of the
   * end is at most the label of the beginning plus the walk's weight.
   */
  lemma {:induction false} FeasibleBoundsWalk(adj: Adjacency, p: map<string, int>, a: string, b: string, hops: seq<Hop>)
    requires Feasible(adj, p) && a in p && IsWalk(adj, a, b, hops)
    ensures b in p && p[b] <= p[a] + WalkWeight(hops)
    decreases |hops|
  {
    if hops != [] {
      var e := Edge(hops[0].to, hops[0].weight);
      assert a in adj && e in adj[a];
      FeasibleBoundsWalk(adj, p, hops[0].to, b, hops[1..]);
    }
  }

  /** A walk extended by one more half-edge out of its end is a walk, heavier by that edge. */
  lemma {:induction false} WalkAppend(adj: Adjacency, a: string, b: string, hops: seq<Hop>, c: string, w: int)
    requires IsWalk(adj, a, b, hops) && Edge(c, w) in Neighbors(adj, b)
    ensures IsWalk(adj, a, c, hops + [Hop(b, c, w)])
    ensures WalkWeight(hops + [Hop(b, c, w)]) == WalkWeight(hops) + w
    decreases |hops|
  {
    var h := Hop(b, c, w);
    if hops == [] {
      assert [h][1..] == [];
    } else {
      WalkAppend(adj, hops[0].to, b, hops[1..], c, w);
      assert (hops + [h])[1..] == hops[1..] + [h];
    }
  }

  /** A graph built through `NewGraph` and `AddEdge`. */
  class Graph {
    var vertices: Adjacency

    ghost predicate Valid()
      reads this
    {
      Symmetric(vertices)
    }

    /** `NewGraph`: no vertices at all. */
    constructor ()
      ensures Valid() && vertices == map[]
    {
      vertices := map[];
    }

    method AddEdge(from: string, to: string, weight: int)
      requires Valid()
      modifies this
      ensures Valid()
      ensures vertices == WithEdge(old(vertices), from, to, weight)
    {
      vertices := vertices[from := GetNeighbors(from) + [Edge(to, weight)]];
      vertices := vertices[to := GetNeighbors(to) + [Edge(from, weight)]];
      AddEdgeKeepsSymmetric(old(vertices), from, to, weight);
    }

    function GetNeighbors(vertex: string): seq<Edge>
      reads this
    {
      Neighbors(vertices, vertex)
    }

    /** Every vertex exactly once, in the (unspecified) order the map is walked. */
    method GetAllVertices() returns (vs: seq<string>)
      ensures |vs| == |vertices|
      ensures forall v :: v in vs <==> v in vertices
      ensures forall i, j :: 0 <= i < j < |vs| ==> vs[i] != vs[j]
    {
      vs := [];
      var rest := vertices.Keys;
      while rest != {}
        invariant rest <= vertices.Keys
        invariant forall v :: v in vs <==> v in vertices && v !in rest
        invariant forall i, j :: 0 <= i < j < |vs| ==> vs[i] != vs[j]
        invariant |vs| + |rest| == |vertices|
        decreases |rest|
      {
        var v :| v in rest;
        vs := vs + [v];
        rest := rest - {v};
      }
    }
  }
}
