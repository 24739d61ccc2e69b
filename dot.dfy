/**
 * The decisions internal/visualizer/dot.go takes while rendering one
 * snapshot: vertex and edge styles, distance labels, the key that keeps
 * `GenerateDOT` from drawing an edge twice, and the row order of the table
 * `generateTable` draws. The DOT and HTML text around them is not modelled.
 */
module Visualizer {
  import opened Wrappers
  import opened Text
  import opened Graphs
  import opened Algorithm

  // ---------------------------------------------------------------------
  // Colours and labels

  const Gold: string := "#FFD700"
  const LightGreen: string := "#90EE90"
  const LightBlue: string := "#ADD8E6"
  const White: string := "#FFFFFF"
  const OrangeRed: string := "#FF4500"
  const LimeGreen: string := "#32CD32"
  const Black: string := "#000000"
  const Infinity: string := "∞"

  /** `getVertexColor`: gold for the current vertex, light green for other visited ones, light blue otherwise. */
  function VertexColor(vertex: string, s: Step): string
  {
    if vertex == s.currentVertex then Gold
    else if IsVisited(s.visited, vertex) then LightGreen
    else LightBlue
  }

  /**
   * The current vertex is gold even when it is visited; any other vertex is
   * light green exactly when visited; and the three colours are distinct.
   */
  lemma VertexColorCases(vertex: string, s: Step)
    ensures VertexColor(vertex, s) == Gold <==> vertex == s.currentVertex
    ensures VertexColor(vertex, s) == LightGreen <==> vertex != s.currentVertex && IsVisited(s.visited, vertex)
    ensures VertexColor(vertex, s) == LightBlue <==> vertex != s.currentVertex && !IsVisited(s.visited, vertex)
  {
    assert Gold[1] != LightGreen[1] && Gold[1] != LightBlue[1] && LightGreen[1] != LightBlue[1];
  }

  /**
   * On the final snapshot of a run a vertex of the graph other than the
   * current one is drawn light blue exactly when it was never reached.
   */
  lemma FinalVertexColor(adj: Adjacency, start: string, s: Step, v: string)
    requires IsFinal(adj, start, s) && v in adj && v != s.currentVertex
    ensures VertexColor(v, s) == LightBlue <==> s.distances[v] == MaxInt32
  {
    VertexColorCases(v, s);
  }

  /** `getDistanceLabel`: "∞" for `math.MaxInt32`, the decimal of the distance otherwise. */
  function DistanceLabel(distance: int): string
  {
    if distance == MaxInt32 then Infinity else IntToDecimal(distance)
  }

  /** The label is "∞" exactly for `MaxInt32`; any other label reads back as the distance. */
  lemma DistanceLabelRoundTrip(distance: int)
    ensures DistanceLabel(distance) == Infinity <==> distance == MaxInt32
    ensures distance != MaxInt32 ==> var r := DistanceLabel(distance);
      r != [] && (r[0] == '-' || IsDigit(r[0])) && (forall k :: 1 <= k < |r| ==> IsDigit(r[k]))
      && ParseInt(r) == distance
  {
    ParseIntToDecimal(distance);
    if distance != MaxInt32 {
      var r := IntToDecimal(distance);
      assert r[0] == '-' || IsDigit(r[0]);
      assert Infinity[0] != '-' && !IsDigit(Infinity[0]);
    }
  }

  // ---------------------------------------------------------------------
  // Edge styles

  /** The three ways `getEdgeColor` and `getEdgeWidth` draw an edge. */
  datatype EdgeStyle = Exploring | TreeEdge | Plain

  /** The edge is among the snapshot's explorations, in either direction. */
  ghost predicate IsExplored(s: Step, from: string, to: string)
  {
    exists k :: 0 <= k < |s.exploringEdges| && Joins(s.exploringEdges[k], from, to)
  }

  predicate Joins(x: EdgeExploration, from: string, to: string)
  {
    (x.from == from && x.to == to) || (x.from == to && x.to == from)
  }

  /**
   * One end is the recorded predecessor of the other (read with Go's zero
   * value "" for a vertex without one), and both ends are visited.
   */
  predicate IsTreeEdge(s: Step, from: string, to: string)
  {
    && (Get(s.previousVertex, to, "") == from || Get(s.previousVertex, from, "") == to)
    && IsVisited(s.visited, from) && IsVisited(s.visited, to)
  }

  /** The style both functions pick: exploration first, then the predecessor tree, else plain. */
  ghost function StyleOf(s: Step, from: string, to: string): EdgeStyle
  {
    if IsExplored(s, from, to) then Exploring
    else if IsTreeEdge(s, from, to) then TreeEdge
    else Plain
  }

  function StyleColor(style: EdgeStyle): string
  {
    match style
    case Exploring => OrangeRed
    case TreeEdge => LimeGreen
    case Plain => Black
  }

  function StyleWidth(style: EdgeStyle): int
  {
    match style
    case Exploring => 4
    case TreeEdge => 3
    case Plain => 2
  }

  /** The style of an edge does not depend on the direction it is named in. */
  lemma {:induction false} StyleSymmetric(s: Step, from: string, to: string)
    ensures StyleOf(s, from, to) == StyleOf(s, to, from)
  {
    if IsExplored(s, from, to) {
      var k :| 0 <= k < |s.exploringEdges| && Joins(s.exploringEdges[k], from, to);
      assert Joins(s.exploringEdges[k], to, from);
    }
    if IsExplored(s, to, from) {
      var k :| 0 <= k < |s.exploringEdges| && Joins(s.exploringEdges[k], to, from);
      assert Joins(s.exploringEdges[k], from, to);
    }
  }

  /** Colour and width tell the same style apart: each determines the other. */
  lemma ColorWidthAgree(a: EdgeStyle, b: EdgeStyle)
    ensures StyleColor(a) == StyleColor(b) <==> a == b
    ensures StyleWidth(a) == StyleWidth(b) <==> a == b
  {
    assert OrangeRed[2] != LimeGreen[2] && OrangeRed[2] != Black[2] && LimeGreen[2] != Black[2];
  }

  /** `getEdgeColor`: orange-red while explored, lime green on the visited predecessor tree, black otherwise. */
  method EdgeColor(from: string, to: string, s: Step) returns (color: string)
    ensures color == StyleColor(StyleOf(s, from, to))
  {
    for k := 0 to |s.exploringEdges|
      invariant forall m :: 0 <= m < k ==> !Joins(s.exploringEdges[m], from, to)
    {
      if Joins(s.exploringEdges[k], from, to) {
        return OrangeRed;
      }
    }
    if Get(s.previousVertex, to, "") == from || Get(s.previousVertex, from, "") == to {
      if IsVisited(s.visited, from) && IsVisited(s.visited, to) {
        return LimeGreen;
      }
    }
    return Black;
  }

  /** `getEdgeWidth`: 4 while explored, 3 on the visited predecessor tree, 2 otherwise. */
  method EdgeWidth(from: string, to: string, s: Step) returns (width: int)
    ensures width == StyleWidth(StyleOf(s, from, to))
  {
    for k := 0 to |s.exploringEdges|
      invariant forall m :: 0 <= m < k ==> !Joins(s.exploringEdges[m], from, to)
    {
      if Joins(s.exploringEdges[k], from, to) {
        return 4;
      }
    }
    if Get(s.previousVertex, to, "") == from || Get(s.previousVertex, from, "") == to {
      if IsVisited(s.visited, from) && IsVisited(s.visited, to) {
        return 3;
      }
    }
    return 2;
  }

  /**
   * When no visited vertex is named "", the predecessor test of a tree edge
   * reads actual entries of the predecessor map, not Go's zero value.
   */
  lemma TreeEdgeRecorded(s: Step, from: string, to: string)
    requires IsTreeEdge(s, from, to) && "" !in s.visited
    ensures (to in s.previousVertex && s.previousVertex[to] == from) || (from in s.previousVertex && s.previousVertex[from] == to)
  {
    assert from in s.visited && to in s.visited;
  }

  /**
   * On a final snapshot of a graph without a vertex named "", an edge drawn
   * on the predecessor tree (lime green unless explored) joins a vertex to
   * its recorded predecessor along an edge of the graph whose weight is the
   * difference of their distances.
   */
  lemma FinalTreeEdge(adj: Adjacency, start: string, s: Step, from: string, to: string)
    requires IsFinal(adj, start, s) && "" !in adj && start != ""
    requires IsTreeEdge(s, from, to)
    ensures (to in s.previousVertex && s.previousVertex[to] == from) || (from in s.previousVertex && s.previousVertex[from] == to)
    ensures to in s.previousVertex && s.previousVertex[to] == from ==> PredecessorEdge(adj, s.distances, s.previousVertex, to)
  {
    FinalNamesVisited(adj, start, s);
    TreeEdgeRecorded(s, from, to);
  }

  lemma FinalNamesVisited(adj: Adjacency, start: string, s: Step)
    requires IsFinal(adj, start, s) && "" !in adj && start != ""
    ensures "" !in s.visited
  {
  }

  // ---------------------------------------------------------------------
  // One line per edge

  /** `getEdgeKey`: the two names, smaller first, joined by "-". */
  function EdgeKey(v1: string, v2: string): string
  {
    if Less(v1, v2) then v1 + "-" + v2 else v2 + "-" + v1
  }

  /** Naming an edge from either end gives the same key. */
  lemma EdgeKeySymmetric(v1: string, v2: string)
    ensures EdgeKey(v1, v2) == EdgeKey(v2, v1)
  {
    LessTotal(v1, v2);
  }

  /** Two different unordered pairs of names that `getEdgeKey` maps to the same key. */
  lemma EdgeKeyCollides()
    ensures {"a-b", "c"} != {"a", "b-c"}
    ensures EdgeKey("a-b", "c") == EdgeKey("a", "b-c") == "a-b-c"
  {
    assert "a" in {"a", "b-c"} && "a" !in {"a-b", "c"};
    assert Less("a-b", "c") && Less("a", "b-c");
  }

  /** A key that keeps the two names apart: the pair itself, smaller name first. */
  function PairKey(v1: string, v2: string): (string, string)
  {
    if Less(v1, v2) then (v1, v2) else (v2, v1)
  }

  /** Two edges share a pair key exactly when they join the same two vertices. */
  lemma PairKeyIff(a: string, b: string, c: string, d: string)
    ensures PairKey(a, b) == PairKey(c, d) <==> (a == c && b == d) || (a == d && b == c)
  {
    LessTotal(a, b);
    LessTotal(c, d);
  }

  /** One `->` line of `GenerateDOT`. */
  datatype EdgeLine = EdgeLine(from: string, to: string, weight: int)

  /** The keys of the lines drawn so far: what `processedEdges` holds. */
  ghost function DrawnKeys<K>(lines: seq<EdgeLine>, key: (string, string) -> K): set<K>
  {
    set k | 0 <= k < |lines| :: key(lines[k].from, lines[k].to)
  }

  lemma DrawnKeysAppend<K>(lines: seq<EdgeLine>, line: EdgeLine, key: (string, string) -> K)
    ensures DrawnKeys(lines + [line], key) == DrawnKeys(lines, key) + {key(line.from, line.to)}
  {
    var longer := lines + [line];
    assert longer[|lines|] == line;
    forall x | x in DrawnKeys(longer, key)
      ensures x in DrawnKeys(lines, key) + {key(line.from, line.to)}
    {
      var k :| 0 <= k < |longer| && x == key(longer[k].from, longer[k].to);
      if k < |lines| {
        assert longer[k] == lines[k];
      }
    }
    forall x | x in DrawnKeys(lines, key)
      ensures x in DrawnKeys(longer, key)
    {
      var k :| 0 <= k < |lines| && x == key(lines[k].from, lines[k].to);
      assert longer[k] == lines[k];
    }
  }

  /**
   * What `GenerateDOT` keeps while it draws: `processed` holds the keys of the
   * lines drawn, every line is an edge of the graph, and no two lines share a key.
   */
  ghost predicate Drawn<K>(adj: Adjacency, lines: seq<EdgeLine>, key: (string, string) -> K, processed: set<K>)
  {
    && processed == DrawnKeys(lines, key)
    && (forall k :: 0 <= k < |lines| ==> lines[k].from in adj && Edge(lines[k].to, lines[k].weight) in adj[lines[k].from])
    && (forall a, b :: 0 <= a < b < |lines| ==> key(lines[a].from, lines[a].to) != key(lines[b].from, lines[b].to))
  }

  /**
   * The lines the inner loop of `GenerateDOT` adds for the edges out of
   * `from`, in order, when the keys in `seen` were drawn before: an edge is
   * drawn unless its key is in `seen` or was drawn earlier in this loop.
   */
  ghost function NewLines<K>(from: string, edges: seq<Edge>, key: (string, string) -> K, seen: set<K>): seq<EdgeLine>
    decreases |edges|
  {
    if edges == [] then []
    else
      var prior := NewLines(from, edges[..|edges| - 1], key, seen);
      var e := edges[|edges| - 1];
      if key(from, e.to) in seen + DrawnKeys(prior, key) then prior else prior + [EdgeLine(from, e.to, e.weight)]
  }

  lemma NewLinesNext<K>(from: string, edges: seq<Edge>, key: (string, string) -> K, seen: set<K>, j: nat)
    requires j < |edges|
    ensures var prior, e := NewLines(from, edges[..j], key, seen), edges[j];
      NewLines(from, edges[..j + 1], key, seen)
        == if key(from, e.to) in seen + DrawnKeys(prior, key) then prior else prior + [EdgeLine(from, e.to, e.weight)]
  {
    assert edges[..j + 1][..j] == edges[..j];
  }

  /** The keys of the edges out of `from`. */
  ghost function EdgeKeys<K>(from: string, edges: seq<Edge>, key: (string, string) -> K): set<K>
  {
    set m | 0 <= m < |edges| :: key(from, edges[m].to)
  }

  /** The `m`-th edge is the first one out of `from` with its key, and that key was not seen before. */
  ghost predicate FirstWithKey<K>(from: string, edges: seq<Edge>, key: (string, string) -> K, seen: set<K>, m: int)
  {
    && 0 <= m < |edges| && key(from, edges[m].to) !in seen
    && forall p :: 0 <= p < m ==> key(from, edges[p].to) != key(from, edges[m].to)
  }

  /** Together with what was seen, the new lines cover the key of every edge out of `from`. */
  lemma {:induction false} NewLinesKeys<K>(from: string, edges: seq<Edge>, key: (string, string) -> K, seen: set<K>)
    ensures seen + DrawnKeys(NewLines(from, edges, key, seen), key) == seen + EdgeKeys(from, edges, key)
    decreases |edges|
  {
    if edges != [] {
      var n := |edges| - 1;
      var front, e := edges[..n], edges[n];
      var prior := NewLines(from, front, key, seen);
      NewLinesKeys(from, front, key, seen);
      DrawnKeysAppend(prior, EdgeLine(from, e.to, e.weight), key);
      assert EdgeKeys(from, edges, key) == EdgeKeys(from, front, key) + {key(from, e.to)} by {
        forall x | x in EdgeKeys(from, edges, key) ensures x in EdgeKeys(from, front, key) + {key(from, e.to)} {
          var m :| 0 <= m < |edges| && x == key(from, edges[m].to);
          if m < n {
            assert front[m] == edges[m];
          }
        }
        forall x | x in EdgeKeys(from, front, key) ensures x in EdgeKeys(from, edges, key) {
          var m :| 0 <= m < |front| && x == key(from, front[m].to);
          assert front[m] == edges[m];
        }
      }
    }
  }

  /**
   * The new lines are exactly the edges out of `from` that are the first with
   * their key and whose key was not seen: `GenerateDOT` draws each such edge
   * and no other.
   */
  lemma {:induction false} NewLinesFirst<K>(from: string, edges: seq<Edge>, key: (string, string) -> K, seen: set<K>)
    ensures forall line :: line in NewLines(from, edges, key, seen) <==>
      exists m :: FirstWithKey(from, edges, key, seen, m) && line == EdgeLine(from, edges[m].to, edges[m].weight)
    decreases |edges|
  {
    if edges != [] {
      var n := |edges| - 1;
      var front, e := edges[..n], edges[n];
      var prior := NewLines(from, front, key, seen);
      NewLinesFirst(from, front, key, seen);
      NewLinesKeys(from, front, key, seen);
      forall m | 0 <= m < n
        ensures FirstWithKey(from, edges, key, seen, m) <==> FirstWithKey(from, front, key, seen, m)
      {
        assert forall p :: 0 <= p <= m ==> front[p] == edges[p];
      }
      assert FirstWithKey(from, edges, key, seen, n) <==> key(from, e.to) !in seen + EdgeKeys(from, front, key) by {
        if key(from, e.to) in EdgeKeys(from, front, key) {
          var p :| 0 <= p < |front| && key(from, e.to) == key(from, front[p].to);
          assert front[p] == edges[p];
        }
        if !FirstWithKey(from, edges, key, seen, n) && key(from, e.to) !in seen {
          var p :| 0 <= p < n && key(from, edges[p].to) == key(from, edges[n].to);
          assert front[p] == edges[p];
        }
      }
    }
  }

  /** What the inner loop of `GenerateDOT` keeps after the first `j` edges out of `from`. */
  ghost predicate DrawnUpTo<K>(adj: Adjacency, from: string, key: (string, string) -> K, processed0: set<K>, lines0: seq<EdgeLine>,
                               j: int, processed: set<K>, lines: seq<EdgeLine>)
    requires from in adj && 0 <= j <= |adj[from]|
  {
    && Drawn(adj, lines, key, processed)
    && lines == lines0 + NewLines(from, adj[from][..j], key, processed0)
    && processed == processed0 + DrawnKeys(NewLines(from, adj[from][..j], key, processed0), key)
  }

  /** The `j`-th edge out of `from` has a key not drawn yet: drawing it keeps the loop's invariant. */
  lemma DrawStep<K>(adj: Adjacency, from: string, key: (string, string) -> K, processed0: set<K>, lines0: seq<EdgeLine>,
                    j: nat, processed: set<K>, lines: seq<EdgeLine>)
    requires from in adj && j < |adj[from]|
    requires DrawnUpTo(adj, from, key, processed0, lines0, j, processed, lines)
    requires key(from, adj[from][j].to) !in processed
    ensures var e := adj[from][j];
      DrawnUpTo(adj, from, key, processed0, lines0, j + 1, processed + {key(from, e.to)}, lines + [EdgeLine(from, e.to, e.weight)])
  {
    var e := adj[from][j];
    var line := EdgeLine(from, e.to, e.weight);
    var prior := NewLines(from, adj[from][..j], key, processed0);
    NewLinesNext(from, adj[from], key, processed0, j);
    DrawnKeysAppend(lines, line, key);
    DrawnKeysAppend(prior, line, key);
    forall a | 0 <= a < |lines|
      ensures key(lines[a].from, lines[a].to) != key(from, e.to)
    {
      assert key(lines[a].from, lines[a].to) in DrawnKeys(lines, key);
    }
  }

  /** The `j`-th edge out of `from` has a key drawn before: skipping it keeps the loop's invariant. */
  lemma SkipStep<K>(adj: Adjacency, from: string, key: (string, string) -> K, processed0: set<K>, lines0: seq<EdgeLine>,
                    j: nat, processed: set<K>, lines: seq<EdgeLine>)
    requires from in adj && j < |adj[from]|
    requires DrawnUpTo(adj, from, key, processed0, lines0, j, processed, lines)
    requires key(from, adj[from][j].to) in processed
    ensures DrawnUpTo(adj, from, key, processed0, lines0, j + 1, processed, lines)
  {
    NewLinesNext(from, adj[from], key, processed0, j);
  }

  /**
   * The inner loop of `GenerateDOT`: the edges out of `from`, each drawn
   * unless its key was seen before. It appends exactly `NewLines`.
   */
  method DrawFrom<K(==)>(adj: Adjacency, from: string, key: (string, string) -> K, processed0: set<K>, lines0: seq<EdgeLine>)
    returns (processed: set<K>, lines: seq<EdgeLine>)
    requires from in adj && Drawn(adj, lines0, key, processed0)
    ensures Drawn(adj, lines, key, processed)
    ensures processed0 <= processed && lines == lines0 + NewLines(from, adj[from], key, processed0)
    ensures forall e :: e in adj[from] ==> key(from, e.to) in processed
  {
    processed, lines := processed0, lines0;
    var edges := adj[from];
    for j := 0 to |edges|
      invariant DrawnUpTo(adj, from, key, processed0, lines0, j, processed, lines)
    {
      var edgeKey := key(from, edges[j].to);
      if edgeKey !in processed {
        DrawStep(adj, from, key, processed0, lines0, j, processed, lines);
        processed := processed + {edgeKey};
        lines := lines + [EdgeLine(from, edges[j].to, edges[j].weight)];
      } else {
        SkipStep(adj, from, key, processed0, lines0, j, processed, lines);
      }
    }
    DrawFromDone(adj, from, key, processed0, lines0, processed, lines);
  }

  lemma DrawFromDone<K>(adj: Adjacency, from: string, key: (string, string) -> K, processed0: set<K>, lines0: seq<EdgeLine>,
                        processed: set<K>, lines: seq<EdgeLine>)
    requires from in adj && DrawnUpTo(adj, from, key, processed0, lines0, |adj[from]|, processed, lines)
    ensures processed0 <= processed && lines == lines0 + NewLines(from, adj[from], key, processed0)
    ensures forall e :: e in adj[from] ==> key(from, e.to) in processed
  {
    var edges := adj[from];
    assert edges[..|edges|] == edges;
    NewLinesKeys(from, edges, key, processed0);
    forall e | e in edges
      ensures key(from, e.to) in processed
    {
      var m :| 0 <= m < |edges| && edges[m] == e;
      assert key(from, edges[m].to) in EdgeKeys(from, edges, key);
    }
  }

  /**
   * All the lines of the edge loop of `GenerateDOT` when Go's map iteration
   * meets the vertices in `order`.
   */
  ghost function DrawAll<K>(adj: Adjacency, order: seq<string>, key: (string, string) -> K): seq<EdgeLine>
    requires forall v :: v in order ==> v in adj
    decreases |order|
  {
    if order == [] then []
    else
      var prior := DrawAll(adj, order[..|order| - 1], key);
      var from := order[|order| - 1];
      prior + NewLines(from, adj[from], key, DrawnKeys(prior, key))
  }

  lemma DrawAllNext<K>(adj: Adjacency, order: seq<string>, key: (string, string) -> K, i: nat)
    requires forall v :: v in order ==> v in adj
    requires i < |order|
    ensures var prior := DrawAll(adj, order[..i], key);
      DrawAll(adj, order[..i + 1], key) == prior + NewLines(order[i], adj[order[i]], key, DrawnKeys(prior, key))
  {
    assert order[..i + 1][..i] == order[..i];
  }

  /** The key of every edge out of the first `i` vertices of `order` is in `processed`. */
  ghost predicate Covered<K>(adj: Adjacency, order: seq<string>, key: (string, string) -> K, i: int, processed: set<K>)
    requires forall v :: v in order ==> v in adj
  {
    forall p, e :: 0 <= p < i && p < |order| && e in adj[order[p]] ==> key(order[p], e.to) in processed
  }

  lemma CoveredNext<K>(adj: Adjacency, order: seq<string>, key: (string, string) -> K, i: nat, processed0: set<K>, processed: set<K>)
    requires forall v :: v in order ==> v in adj
    requires i < |order| && Covered(adj, order, key, i, processed0) && processed0 <= processed
    requires forall e :: e in adj[order[i]] ==> key(order[i], e.to) in processed
    ensures Covered(adj, order, key, i + 1, processed)
  {
  }

  /**
   * The edge loop of `GenerateDOT`, for any key function: `order` is the
   * order in which Go's map iteration happens to visit the vertices. A line
   * is drawn for an edge whose key has not been seen yet.
   */
  method DrawEdges<K(==)>(adj: Adjacency, order: seq<string>, key: (string, string) -> K) returns (lines: seq<EdgeLine>)
    requires forall v :: v in order ==> v in adj
    ensures lines == DrawAll(adj, order, key)
    ensures forall k :: 0 <= k < |lines| ==> lines[k].from in adj && Edge(lines[k].to, lines[k].weight) in adj[lines[k].from]
    ensures forall i, j :: 0 <= i < j < |lines| ==> key(lines[i].from, lines[i].to) != key(lines[j].from, lines[j].to)
    ensures forall u, e :: u in order && e in adj[u] ==> key(u, e.to) in DrawnKeys(lines, key)
  {
    var processed: set<K> := {};
    lines := [];
    for i := 0 to |order|
      invariant Drawn(adj, lines, key, processed)
      invariant lines == DrawAll(adj, order[..i], key)
      invariant Covered(adj, order, key, i, processed)
    {
      DrawAllNext(adj, order, key, i);
      ghost var processed0 := processed;
      processed, lines := DrawFrom(adj, order[i], key, processed, lines);
      CoveredNext(adj, order, key, i, processed0, processed);
    }
    assert order[..|order|] == order;
  }

  /** The line joins `a` and `b`, in either direction. */
  predicate SamePair(line: EdgeLine, a: string, b: string)
  {
    (line.from == a && line.to == b) || (line.from == b && line.to == a)
  }

  /** Some line joins `a` and `b`. */
  ghost predicate PairDrawn(lines: seq<EdgeLine>, a: string, b: string)
  {
    exists k :: 0 <= k < |lines| && SamePair(lines[k], a, b)
  }

  /**
   * The edge loop of `GenerateDOT` as written, keyed by `getEdgeKey`: every
   * line is an edge, no unordered pair is drawn twice, and every edge's key
   * is among the drawn ones. `order` lists the vertices as Go's map
   * iteration meets them.
   */
  method GenerateEdgeLines(adj: Adjacency, order: seq<string>) returns (lines: seq<EdgeLine>)
    requires forall v :: v in order <==> v in adj
    ensures lines == DrawAll(adj, order, EdgeKey)
    ensures forall k :: 0 <= k < |lines| ==> lines[k].from in adj && Edge(lines[k].to, lines[k].weight) in adj[lines[k].from]
    ensures forall i, j :: 0 <= i < j < |lines| ==> !SamePair(lines[j], lines[i].from, lines[i].to)
    ensures forall i, j :: 0 <= i < j < |lines| ==> EdgeKey(lines[i].from, lines[i].to) != EdgeKey(lines[j].from, lines[j].to)
    ensures forall u, e :: u in adj && e in adj[u] ==> EdgeKey(u, e.to) in DrawnKeys(lines, EdgeKey)
  {
    lines := DrawEdges(adj, order, EdgeKey);
    forall i, j | 0 <= i < j < |lines|
      ensures !SamePair(lines[j], lines[i].from, lines[i].to)
    {
      EdgeKeySymmetric(lines[i].from, lines[i].to);
    }
  }

  /**
   * As written, the loop can leave out an edge: once `a-b`–`c` is drawn,
   * the different edge `a`–`b-c` has the same key and is never drawn.
   */
  lemma CollidingEdgeDropped(lines: seq<EdgeLine>)
    requires forall i, j :: 0 <= i < j < |lines| ==> EdgeKey(lines[i].from, lines[i].to) != EdgeKey(lines[j].from, lines[j].to)
    ensures !((exists i :: 0 <= i < |lines| && SamePair(lines[i], "a-b", "c"))
           && (exists j :: 0 <= j < |lines| && SamePair(lines[j], "a", "b-c")))
  {
    EdgeKeyCollides();
    EdgeKeySymmetric("a-b", "c");
    EdgeKeySymmetric("a", "b-c");
    if i :| 0 <= i < |lines| && SamePair(lines[i], "a-b", "c") {
      if j :| 0 <= j < |lines| && SamePair(lines[j], "a", "b-c") {
        assert EdgeKey(lines[i].from, lines[i].to) == EdgeKey(lines[j].from, lines[j].to);
        assert lines[i] != lines[j];
        if i < j {
        } else {
        }
      }
    }
  }

  /**
   * The edge loop keyed by the pair of names: exactly one line for each
   * unordered pair of adjacent vertices.
   */
  method GenerateEdgeLinesByPair(adj: Adjacency, order: seq<string>) returns (lines: seq<EdgeLine>)
    requires forall v :: v in order <==> v in adj
    ensures lines == DrawAll(adj, order, PairKey)
    ensures forall k :: 0 <= k < |lines| ==> lines[k].from in adj && Edge(lines[k].to, lines[k].weight) in adj[lines[k].from]
    ensures forall i, j :: 0 <= i < j < |lines| ==> !SamePair(lines[j], lines[i].from, lines[i].to)
    ensures forall u, e :: u in adj && e in adj[u] ==> PairDrawn(lines, u, e.to)
  {
    lines := DrawEdges(adj, order, PairKey);
    forall i, j | 0 <= i < j < |lines|
      ensures !SamePair(lines[j], lines[i].from, lines[i].to)
    {
      PairKeyIff(lines[i].from, lines[i].to, lines[j].from, lines[j].to);
    }
    forall u, e | u in adj && e in adj[u]
      ensures PairDrawn(lines, u, e.to)
    {
      assert PairKey(u, e.to) in DrawnKeys(lines, PairKey);
      var k :| 0 <= k < |lines| && PairKey(lines[k].from, lines[k].to) == PairKey(u, e.to);
      PairKeyIff(lines[k].from, lines[k].to, u, e.to);
    }
  }

  // ---------------------------------------------------------------------
  // The table rows

  /** Go's `a <= b` on strings. */
  predicate LessEq(a: string, b: string)
  {
    !Less(b, a)
  }

  lemma LessEqAntisymmetric(a: string, b: string)
    requires LessEq(a, b) && LessEq(b, a)
    ensures a == b
  {
    LessTotal(a, b);
  }

  lemma LessThenLessEq(a: string, b: string, c: string)
    requires Less(a, b) && LessEq(b, c)
    ensures Less(a, c) && LessEq(a, c)
  {
    LessTotal(b, c);
    if b != c {
      LessTransitive(a, b, c);
    }
    LessTotal(a, c);
  }

  ghost predicate Ascending(s: seq<string>)
  {
    forall i, j :: 0 <= i < j < |s| ==> LessEq(s[i], s[j])
  }

  /** The first `i` places hold their final values: each is at most everything after it. */
  ghost predicate SettledUpTo(s: seq<string>, i: int)
  {
    forall p, q :: 0 <= p < i && p < q < |s| ==> LessEq(s[p], s[q])
  }

  /** Place `i` holds the least of the places before `j`. */
  ghost predicate LeastUpTo(s: seq<string>, i: int, j: int)
    requires 0 <= i < |s| && j <= |s|
  {
    forall q :: i < q < j ==> LessEq(s[i], s[q])
  }

  /**
   * One round of the outer loop of `generateTable`'s sort: compare place `i`
   * with every later place and swap whenever the later one is smaller.
   */
  method SettlePlace(a: array<string>, i: int)
    requires 0 <= i < a.Length && SettledUpTo(a[..], i)
    modifies a
    ensures SettledUpTo(a[..], i + 1)
    ensures multiset(a[..]) == multiset(old(a[..]))
  {
    for j := i + 1 to a.Length
      invariant SettledUpTo(a[..], i)
      invariant LeastUpTo(a[..], i, j)
      invariant multiset(a[..]) == multiset(old(a[..]))
    {
      CompareSwap(a, i, j);
    }
  }

  /** The body of the inner loop: swap places `i` and `j` when the name at `j` is smaller. */
  method CompareSwap(a: array<string>, i: int, j: int)
    requires 0 <= i < j < a.Length && SettledUpTo(a[..], i) && LeastUpTo(a[..], i, j)
    modifies a
    ensures SettledUpTo(a[..], i) && LeastUpTo(a[..], i, j + 1)
    ensures multiset(a[..]) == multiset(old(a[..]))
  {
    ghost var s := a[..];
    if Less(a[j], a[i]) {
      SwapSettles(s, i, j);
      a[i], a[j] := a[j], a[i];
      assert a[..] == s[i := s[j]][j := s[i]];
    }
  }

  /** Swapping a smaller later name into place `i` keeps the settled places and the bound on place `i`. */
  lemma SwapSettles(s: seq<string>, i: int, j: int)
    requires 0 <= i < j < |s| && SettledUpTo(s, i) && Less(s[j], s[i])
    requires LeastUpTo(s, i, j)
    ensures var t := s[i := s[j]][j := s[i]];
      SettledUpTo(t, i) && LeastUpTo(t, i, j + 1) && multiset(t) == multiset(s)
  {
    var t := s[i := s[j]][j := s[i]];
    forall q | i < q < j
      ensures LessEq(t[i], t[q])
    {
      LessThenLessEq(s[j], s[i], s[q]);
    }
    LessTotal(s[j], s[i]);
  }

  /** The nested swap loops of `generateTable`: ascending order, same names. */
  method SortVertices(a: array<string>)
    modifies a
    ensures Ascending(a[..])
    ensures multiset(a[..]) == multiset(old(a[..]))
  {
    for i := 0 to a.Length
      invariant SettledUpTo(a[..], i)
      invariant multiset(a[..]) == multiset(old(a[..]))
    {
      SettlePlace(a, i);
    }
  }

  /**
   * The rows of `generateTable`: the names of the distance map, collected in
   * whatever order Go's map iteration yields, then sorted.
   */
  method TableOrder(distances: map<string, int>) returns (rows: seq<string>)
    ensures Ascending(rows)
    ensures multiset(rows) == multiset(distances.Keys)
  {
    var vertices: seq<string> := [];
    var rest := distances.Keys;
    while rest != {}
      invariant rest <= distances.Keys
      invariant multiset(vertices) + multiset(rest) == multiset(distances.Keys)
      decreases rest
    {
      var v :| v in rest;
      vertices := vertices + [v];
      assert multiset(rest) == multiset(rest - {v}) + multiset{v};
      rest := rest - {v};
    }
    var a := new string[|vertices|](k requires 0 <= k < |vertices| => vertices[k]);
    assert a[..] == vertices;
    SortVertices(a);
    rows := a[..];
  }

  /**
   * Two ascending arrangements of the same names are the same sequence:
   * the table's row order does not depend on map iteration order.
   */
  lemma {:induction false} AscendingUnique(s: seq<string>, t: seq<string>)
    requires Ascending(s) && Ascending(t) && multiset(s) == multiset(t)
    ensures s == t
    decreases |s|
  {
    if s != [] {
      assert s[0] in multiset(t) && t[0] in multiset(s);
      var k :| 0 <= k < |t| && t[k] == s[0];
      var m :| 0 <= m < |s| && s[m] == t[0];
      if m != 0 {
        assert LessEq(s[0], s[m]);
      }
      if k != 0 {
        assert LessEq(t[0], t[k]);
      }
      LessIrreflexive(s[0]);
      LessIrreflexive(t[0]);
      LessEqAntisymmetric(s[0], t[0]);
      AscendingSplit(s);
      AscendingSplit(t);
      assert multiset(s[1..]) == multiset(s) - multiset{s[0]};
      assert multiset(t[1..]) == multiset(t) - multiset{t[0]};
      AscendingUnique(s[1..], t[1..]);
    } else {
      assert |t| == |multiset(t)|;
    }
  }

  lemma AscendingSplit(s: seq<string>)
    requires Ascending(s) && s != []
    ensures Ascending(s[1..]) && s == [s[0]] + s[1..]
    ensures multiset(s) == multiset{s[0]} + multiset(s[1..])
  {
    assert s == [s[0]] + s[1..];
    forall i, j | 0 <= i < j < |s| - 1
      ensures LessEq(s[1..][i], s[1..][j])
    {
      assert s[1..][i] == s[i + 1] && s[1..][j] == s[j + 1];
    }
  }

  /** The four cells of one table row, as `generateTable` fills them. */
  datatype TableRow = TableRow(background: string, distance: string, previous: string, visited: string)

  /**
   * The row of `v`: gold for the current vertex, light green when visited,
   * white otherwise; "-" when there is no predecessor; "Yes" or "No".
   */
  function Row(s: Step, v: string): TableRow
  {
    var visited := IsVisited(s.visited, v);
    var prev := Get(s.previousVertex, v, "");
    TableRow(
      if v == s.currentVertex then Gold else if visited then LightGreen else White,
      DistanceLabel(Get(s.distances, v, 0)),
      if prev != "" then prev else "-",
      if visited then "Yes" else "No")
  }

  /**
   * A row's background is its vertex's colour in the drawing, with white in
   * place of light blue; its predecessor cell shows "-" both when there is
   * none and when the predecessor is named "-".
   */
  lemma RowCells(s: Step, v: string)
    ensures Row(s, v).background == if VertexColor(v, s) == LightBlue then White else VertexColor(v, s)
    ensures Row(s, v).previous == "-" <==> Get(s.previousVertex, v, "") == "" || Get(s.previousVertex, v, "") == "-"
    ensures Row(s, v).visited == "Yes" <==> IsVisited(s.visited, v)
  {
    VertexColorCases(v, s);
  }
}
