/** Ordering the dependency graph and rendering one line per node (`generate_sequence`
    in transform4.py). The topological sort is Kahn's algorithm: repeatedly take the
    first remaining node that no remaining node points to. When no such node exists the
    remaining nodes form a set in which every node has a predecessor, which rules out
    every topological order, and the nodes are used in insertion order instead. */
module Sequencer {
  import opened Wrappers
  import opened SpanTree
  import opened DependencyGraph
  import opened EdgeFormat

  predicate Distinct(s: seq<SpanId>) {
    forall i, j :: 0 <= i < j < |s| ==> s[i] != s[j]
  }

  /** `order` lists every node exactly once and every edge points forward in it. */
  ghost predicate IsTopologicalOrder(g: Graph, order: seq<SpanId>) {
    Distinct(order) &&
    (forall v :: v in order <==> v in g.nodes) &&
    (forall i, j :: 0 <= i < |order| && 0 <= j < |order| && HasEdge(g, order[i], order[j]) ==> i < j)
  }

  /** `v` has a predecessor among `rest`. */
  predicate HasPredIn(g: Graph, v: SpanId, rest: seq<SpanId>) {
    exists u :: u in rest && HasEdge(g, u, v)
  }

  /** A nonempty set of nodes each of which has a predecessor in the set: the graph
      has a cycle through it. */
  ghost predicate Closed(g: Graph, c: set<SpanId>) {
    c != {} &&
    (forall v :: v in c ==> v in g.spanOf) &&
    (forall v {:trigger PredInSet(g, v, c)} :: v in c ==> PredInSet(g, v, c))
  }

  /** `v` has a predecessor in `c`. */
  ghost predicate PredInSet(g: Graph, v: SpanId, c: set<SpanId>) {
    exists u :: u in c && HasEdge(g, u, v)
  }

  /** A closed set of nodes leaves no topological order. */
  lemma ClosedSetHasNoOrder(g: Graph, c: set<SpanId>)
    requires forall v :: v in g.spanOf ==> v in g.nodes
    requires Closed(g, c)
    ensures forall order :: !IsTopologicalOrder(g, order)
  {
    forall order ensures !IsTopologicalOrder(g, order) {
      ClosedSetBlocks(g, c, order);
    }
  }

  /** Given a duplicate-free listing of the nodes, the first node of a closed set in it
      has a predecessor in the set that is listed no earlier: an edge pointing backward. */
  lemma ClosedSetBlocks(g: Graph, c: set<SpanId>, order: seq<SpanId>)
    requires forall v :: v in g.spanOf ==> v in g.nodes
    requires Closed(g, c)
    ensures !IsTopologicalOrder(g, order)
  {
    if Distinct(order) && (forall v :: v in order <==> v in g.nodes) {
      var v :| v in c;
      assert v in order;
      var m := FirstIn(order, c);
      assert PredInSet(g, order[m], c);
      var u :| u in c && HasEdge(g, u, order[m]);
      assert u in order;
      var j :| 0 <= j < |order| && order[j] == u;
      assert m <= j && HasEdge(g, order[j], order[m]);
    }
  }

  /** The index of the first element of `s` that lies in `c`, or `|s|`. */
  function FirstIn(s: seq<SpanId>, c: set<SpanId>): (m: nat)
    ensures m <= |s|
    ensures m < |s| ==> s[m] in c
    ensures forall i :: 0 <= i < m ==> s[i] !in c
    ensures (exists v :: v in s && v in c) ==> m < |s|
  {
    if s == [] then 0
    else if s[0] in c then 0
    else 1 + FirstIn(s[1..], c)
  }

  /** `s` without its element at `j`. */
  function RemoveAt(s: seq<SpanId>, j: int): (r: seq<SpanId>)
    requires 0 <= j < |s| && Distinct(s)
    ensures |r| == |s| - 1 && Distinct(r)
    ensures forall v :: v in r <==> v in s && v != s[j]
  {
    var r := s[..j] + s[j + 1..];
    assert forall i :: 0 <= i < |r| ==> r[i] == if i < j then s[i] else s[i + 1];
    r
  }

  /** The index of the first node of `rest` that no node of `rest` points to, or `|rest|`
      when every node of `rest` has a predecessor in `rest`. */
  method FindSource(g: Graph, rest: seq<SpanId>) returns (j: int)
    ensures 0 <= j <= |rest|
    ensures j < |rest| ==> !HasPredIn(g, rest[j], rest)
    ensures forall k {:trigger HasPredIn(g, rest[k], rest)} :: 0 <= k < j ==> HasPredIn(g, rest[k], rest)
  {
    j := 0;
    while j < |rest| && HasPredIn(g, rest[j], rest)
      invariant 0 <= j <= |rest|
      invariant forall k {:trigger HasPredIn(g, rest[k], rest)} :: 0 <= k < j ==> HasPredIn(g, rest[k], rest)
    {
      j := j + 1;
    }
  }

  /** `nx.topological_sort(graph)`: some topological order of the graph, or `None` (the
      `NetworkXUnfeasible` case) exactly when the graph has none. */
  method TopologicalSort(g: Graph) returns (r: Option<seq<SpanId>>)
    requires Valid(g)
    ensures r.Some? ==> IsTopologicalOrder(g, r.value)
    ensures r.None? ==> forall order :: !IsTopologicalOrder(g, order)
  {
    var rest := g.nodes;
    var order: seq<SpanId> := [];
    while rest != []
      invariant Distinct(order) && Distinct(rest)
      invariant forall v :: v in order ==> v !in rest
      invariant forall v :: v in g.nodes <==> v in order || v in rest
      invariant forall i, u :: 0 <= i < |order| && HasEdge(g, u, order[i]) ==> u in order[..i]
      decreases |rest|
    {
      var j := FindSource(g, rest);
      if j == |rest| {
        ClosedRest(g, rest);
        return None;
      }
      var v := rest[j];
      forall u | HasEdge(g, u, v) ensures u in order {
        assert u in g.spanOf;
      }
      assert v !in order;
      assert (order + [v])[..|order|] == order;
      order := order + [v];
      rest := RemoveAt(rest, j);
    }
    OrderRespectsEdges(g, order);
    return Some(order);
  }

  /** When every remaining node has a predecessor among the remaining ones, no
      topological order exists. */
  lemma ClosedRest(g: Graph, rest: seq<SpanId>)
    requires forall v :: v in g.spanOf ==> v in g.nodes
    requires rest != []
    requires forall v :: v in rest ==> v in g.spanOf
    requires forall k {:trigger HasPredIn(g, rest[k], rest)} :: 0 <= k < |rest| ==> HasPredIn(g, rest[k], rest)
    ensures forall order :: !IsTopologicalOrder(g, order)
  {
    RestIsClosed(g, rest);
    ClosedSetHasNoOrder(g, Elements(rest));
  }

  lemma RestIsClosed(g: Graph, rest: seq<SpanId>)
    requires rest != []
    requires forall v :: v in rest ==> v in g.spanOf
    requires forall k {:trigger HasPredIn(g, rest[k], rest)} :: 0 <= k < |rest| ==> HasPredIn(g, rest[k], rest)
    ensures Closed(g, Elements(rest))
  {
    var c := Elements(rest);
    assert rest[0] in c;
    forall v | v in c ensures PredInSet(g, v, c) {
      var k :| 0 <= k < |rest| && rest[k] == v;
      assert HasPredIn(g, rest[k], rest);
      var u :| u in rest && HasEdge(g, u, v);
      assert u in c;
    }
  }

  /** A duplicate-free order in which each node's predecessors all come before it makes
      every edge point forward. */
  lemma OrderRespectsEdges(g: Graph, order: seq<SpanId>)
    requires Distinct(order)
    requires forall i, u :: 0 <= i < |order| && HasEdge(g, u, order[i]) ==> u in order[..i]
    ensures forall i, j :: 0 <= i < |order| && 0 <= j < |order| && HasEdge(g, order[i], order[j]) ==> i < j
  {
    forall i, j | 0 <= i < |order| && 0 <= j < |order| && HasEdge(g, order[i], order[j]) ensures i < j {
      assert order[i] in order[..j];
      var k :| 0 <= k < j && order[..j][k] == order[i];
      assert order[k] == order[i];
    }
  }

  /** The span the line for `v` names as its source: that of the first predecessor. */
  function ParentSpan(g: Graph, v: SpanId): (r: Option<Span>)
    requires Valid(g)
    ensures r.None? <==> FirstPred(g, v).None?
    ensures r.Some? ==> FirstPred(g, v).value in g.spanOf && r.value == g.spanOf[FirstPred(g, v).value]
  {
    match FirstPred(g, v)
    case None => None
    case Some(p) => assert (p, v) in g.kind; Some(g.spanOf[p])
  }

  /** The line `generate_sequence` renders for node `v`. */
  function EdgeLine(g: Graph, v: SpanId): string
    requires Valid(g) && v in g.spanOf
  {
    FormatEdge(g.spanOf[v], ParentSpan(g, v))
  }

  /** The order `generate_sequence` walks: a topological order when there is one, and
      otherwise (`NetworkXUnfeasible`) the nodes in insertion order. Either way every node
      appears exactly once. */
  method NodeOrder(g: Graph) returns (order: seq<SpanId>)
    requires Valid(g)
    ensures IsTopologicalOrder(g, order) || (order == g.nodes && forall o :: !IsTopologicalOrder(g, o))
    ensures Distinct(order) && forall v :: v in order <==> v in g.nodes
    ensures |order| == |g.nodes|
  {
    var sorted := TopologicalSort(g);
    if sorted.Some? {
      order := sorted.value;
      DistinctSameLength(order, g.nodes);
    } else {
      order := g.nodes;
    }
  }

  /** `generate_sequence(graph)`: one line per node, in the order `NodeOrder` chooses. */
  method GenerateSequence(g: Graph) returns (order: seq<SpanId>, sequence: seq<string>)
    requires Valid(g)
    ensures IsTopologicalOrder(g, order) || (order == g.nodes && forall o :: !IsTopologicalOrder(g, o))
    ensures Distinct(order) && forall v :: v in order <==> v in g.nodes
    ensures |order| == |g.nodes| && forall v :: v in order ==> v in g.spanOf
    ensures sequence == Lines(g, order)
  {
    order := NodeOrder(g);
    sequence := RenderLines(g, order);
  }

  /** The lines of the nodes of `order`, in that order. */
  function Lines(g: Graph, order: seq<SpanId>): (r: seq<string>)
    requires Valid(g) && forall v :: v in order ==> v in g.spanOf
    ensures |r| == |order|
  {
    if order == [] then [] else Lines(g, order[..|order| - 1]) + [EdgeLine(g, order[|order| - 1])]
  }

  /** Line `i` is the line of the `i`-th node. */
  lemma {:induction false} LinesAt(g: Graph, order: seq<SpanId>, i: int)
    requires Valid(g) && forall v :: v in order ==> v in g.spanOf
    requires 0 <= i < |order|
    ensures Lines(g, order)[i] == EdgeLine(g, order[i])
  {
    if i < |order| - 1 {
      LinesAt(g, order[..|order| - 1], i);
    }
  }

  /** The loop of `generate_sequence`: the line of each node, in the given order. */
  method RenderLines(g: Graph, order: seq<SpanId>) returns (sequence: seq<string>)
    requires Valid(g) && forall v :: v in order ==> v in g.spanOf
    ensures sequence == Lines(g, order)
  {
    sequence := [];
    var i := 0;
    while i < |order|
      invariant 0 <= i <= |order|
      invariant sequence == Lines(g, order[..i])
    {
      LinesStep(g, order, i);
      sequence := sequence + [EdgeLine(g, order[i])];
      i := i + 1;
    }
    assert order[..i] == order;
  }

  /** One more node of the order adds its line at the end. */
  lemma LinesStep(g: Graph, order: seq<SpanId>, i: int)
    requires Valid(g) && forall v :: v in order ==> v in g.spanOf
    requires 0 <= i < |order|
    ensures Lines(g, order[..i + 1]) == Lines(g, order[..i]) + [EdgeLine(g, order[i])]
  {
    assert order[..i + 1][..i] == order[..i];
  }

  // ---- the source named on each line of a built graph ----

  /** The first span of `spans` with id `id`, if any. */
  function SpanById(spans: seq<Span>, id: SpanId): (r: Option<Span>)
    ensures r.Some? ==> r.value in spans && r.value.spanId == id
    ensures r.None? ==> forall k :: 0 <= k < |spans| ==> spans[k].spanId != id
  {
    if spans == [] then None
    else if spans[0].spanId == id then Some(spans[0])
    else SpanById(spans[1..], id)
  }

  /** The span whose service the line for `SortByStart(spans)[m]` should name as its
      source: the causal parent if the span has one among `spans`, otherwise the span
      just before it in start-time order if that one started at most two seconds
      earlier, otherwise none (the line then names `Client`). */
  function ExpectedParentSpan(spans: seq<Span>, m: int): Option<Span>
    requires 0 <= m < |spans|
  {
    match ExpectedSource(spans, SortByStart(spans), m)
    case None => None
    case Some(p) => SpanById(spans, p)
  }

  /** On the graph `BuildDependencyGraph` returns, the line of every span names the
      expected source. The edge list is passed separately as `es`, always equal to
      `g.edges`. This is a workaround for the verifier: with the same requirement stated
      directly over `g.edges`, Dafny 4.11 derives a contradiction. */
  lemma BuiltEdgeLine(spans: seq<Span>, g: Graph, m: int, es: seq<(SpanId, SpanId)>)
    requires Valid(g) && es == g.edges
    requires forall k :: 0 <= k < |spans| ==> spans[k].spanId in g.spanOf && g.spanOf[spans[k].spanId] == spans[k]
    requires 0 <= m < |spans|
    requires FirstSource(es, SortByStart(spans)[m].spanId) == ExpectedSource(spans, SortByStart(spans), m)
    ensures SortByStart(spans)[m].spanId in g.spanOf
    ensures EdgeLine(g, SortByStart(spans)[m].spanId) == FormatEdge(SortByStart(spans)[m], ExpectedParentSpan(spans, m))
  {
    var sorted := SortByStart(spans);
    assert sorted[m] in multiset(spans);
    var k := IndexIn(spans, sorted[m]);
    ExpectedSourceStored(spans, g, m);
  }

  /** The expected source of a span is a span of `spans`, stored under its id. */
  lemma ExpectedSourceStored(spans: seq<Span>, g: Graph, m: int)
    requires forall k :: 0 <= k < |spans| ==> spans[k].spanId in g.spanOf && g.spanOf[spans[k].spanId] == spans[k]
    requires 0 <= m < |spans|
    ensures var e := ExpectedSource(spans, SortByStart(spans), m);
      e.Some? ==> SpanById(spans, e.value).Some? && e.value in g.spanOf && g.spanOf[e.value] == SpanById(spans, e.value).value
  {
    var sorted := SortByStart(spans);
    var e := ExpectedSource(spans, sorted, m);
    if e.Some? {
      if ParentSource(sorted[m], Ids(spans)).Some? {
        var j :| 0 <= j < |spans| && Ids(spans)[j] == e.value;
      } else {
        assert sorted[m - 1] in multiset(spans);
        var j := IndexIn(spans, sorted[m - 1]);
      }
      var q := SpanById(spans, e.value).value;
      var j := IndexIn(spans, q);
    }
  }

  // ---- when the order is topological ----

  /** The spans stored on the nodes, in node order. */
  function NodeSpans(g: Graph): (r: seq<Span>)
    requires forall v :: v in g.nodes ==> v in g.spanOf
    ensures |r| == |g.nodes| && forall i :: 0 <= i < |r| ==> r[i] == g.spanOf[g.nodes[i]]
  {
    seq(|g.nodes|, i requires 0 <= i < |g.nodes| => g.spanOf[g.nodes[i]])
  }

  /** When every edge leads from a span to one that starts strictly later, listing the
      nodes by start time is a topological order; so `generate_sequence` never falls back
      to insertion order for such a graph. */
  lemma ForwardEdgesGiveOrder(g: Graph)
    requires Valid(g)
    requires forall u, v :: HasEdge(g, u, v) ==> g.spanOf[u].startMs < g.spanOf[v].startMs
    ensures IsTopologicalOrder(g, Ids(SortByStart(NodeSpans(g))))
  {
    var sorted := SortByStart(NodeSpans(g));
    var order := Ids(sorted);
    SortedNodeIds(g);
    SortedNodeSpans(g);
    forall i, j | 0 <= i < |order| && 0 <= j < |order| && HasEdge(g, order[i], order[j]) ensures i < j {
      SortedMono(sorted, j, i);
    }
  }

  /** Listing the node spans by start time lists every node once. */
  lemma SortedNodeIds(g: Graph)
    requires Valid(g)
    ensures Distinct(Ids(SortByStart(NodeSpans(g))))
    ensures forall v :: v in Ids(SortByStart(NodeSpans(g))) <==> v in g.nodes
  {
    var spans := NodeSpans(g);
    assert Ids(spans) == g.nodes;
    DistinctIdsPermutation(spans, SortByStart(spans));
    forall v ensures v in Ids(SortByStart(spans)) <==> v in g.nodes {
      NodeInSorted(g, v);
      SortedInNodes(g, v);
    }
  }

  lemma NodeInSorted(g: Graph, v: SpanId)
    requires Valid(g)
    ensures v in g.nodes ==> v in Ids(SortByStart(NodeSpans(g)))
  {
    var spans := NodeSpans(g);
    var sorted := SortByStart(spans);
    if v in g.nodes {
      var k :| 0 <= k < |g.nodes| && g.nodes[k] == v;
      assert spans[k] in multiset(sorted);
      var i := IndexIn(sorted, spans[k]);
      assert Ids(sorted)[i] == v;
    }
  }

  lemma SortedInNodes(g: Graph, v: SpanId)
    requires Valid(g)
    ensures v in Ids(SortByStart(NodeSpans(g))) ==> v in g.nodes
  {
    var spans := NodeSpans(g);
    var sorted := SortByStart(spans);
    if v in Ids(sorted) {
      var i :| 0 <= i < |sorted| && Ids(sorted)[i] == v;
      assert sorted[i] in multiset(spans);
      var k := IndexIn(spans, sorted[i]);
      assert g.nodes[k] == v;
    }
  }

  /** Each node span, wherever the sort puts it, is the span stored under its id. */
  lemma SortedNodeSpans(g: Graph)
    requires Valid(g)
    ensures forall i :: 0 <= i < |SortByStart(NodeSpans(g))| ==>
      SortByStart(NodeSpans(g))[i].spanId in g.spanOf && g.spanOf[SortByStart(NodeSpans(g))[i].spanId] == SortByStart(NodeSpans(g))[i]
  {
    var spans := NodeSpans(g);
    var sorted := SortByStart(spans);
    forall i | 0 <= i < |sorted| ensures sorted[i].spanId in g.spanOf && g.spanOf[sorted[i].spanId] == sorted[i] {
      assert sorted[i] in multiset(spans);
      NodeSpanStored(g, sorted[i]);
    }
  }

  /** A node span is the span stored under its id. */
  lemma NodeSpanStored(g: Graph, x: Span)
    requires Valid(g) && x in multiset(NodeSpans(g))
    ensures x.spanId in g.spanOf && g.spanOf[x.spanId] == x
  {
    var k := IndexIn(NodeSpans(g), x);
  }

  /** The index of an element of `s`. */
  function IndexIn(s: seq<Span>, x: Span): (k: int)
    requires x in s
    ensures 0 <= k < |s| && s[k] == x
  {
    if s[0] == x then 0 else 1 + IndexIn(s[1..], x)
  }

  /** The graph built from spans in which every parent starts strictly before its child
      has a topological order: its `time` edges point forward in time, and so then do its
      `parent` edges. */
  lemma AcyclicWhenParentsStartFirst(spans: seq<Span>, g: Graph)
    requires Valid(g) && g.nodes == Ids(spans)
    requires forall k :: 0 <= k < |spans| ==> spans[k].spanId in g.spanOf && g.spanOf[spans[k].spanId] == spans[k]
    requires forall u, v :: HasEdge(g, u, v) <==> ParentLink(spans, u, v) || TimeLink(SortByStart(spans), u, v)
    requires forall k, p ::
      (0 <= k < |spans| && 0 <= p < |spans| && ParentSource(spans[k], Ids(spans)) == Some(spans[p].spanId)) ==>
      spans[p].startMs < spans[k].startMs
    ensures exists order :: IsTopologicalOrder(g, order)
  {
    forall u, v | HasEdge(g, u, v) ensures g.spanOf[u].startMs < g.spanOf[v].startMs {
      if TimeLink(SortByStart(spans), u, v) {
        TimeLinkForward(spans, g.spanOf, u, v);
      } else {
        ParentLinkForward(spans, g, u, v);
      }
    }
    ForwardEdgesGiveOrder(g);
  }

  /** A `parent` edge points forward in time when every parent starts before its child. */
  lemma ParentLinkForward(spans: seq<Span>, g: Graph, u: SpanId, v: SpanId)
    requires forall k :: 0 <= k < |spans| ==> spans[k].spanId in g.spanOf && g.spanOf[spans[k].spanId] == spans[k]
    requires forall k, p ::
      (0 <= k < |spans| && 0 <= p < |spans| && ParentSource(spans[k], Ids(spans)) == Some(spans[p].spanId)) ==>
      spans[p].startMs < spans[k].startMs
    requires ParentLink(spans, u, v)
    ensures u in g.spanOf && v in g.spanOf && g.spanOf[u].startMs < g.spanOf[v].startMs
  {
    var k :| 0 <= k < |spans| && spans[k].spanId == v && ParentSource(spans[k], Ids(spans)) == Some(u);
    var p :| 0 <= p < |spans| && Ids(spans)[p] == u;
  }

  /** Two duplicate-free sequences with the same elements have the same length. */
  lemma DistinctSameLength(a: seq<SpanId>, b: seq<SpanId>)
    requires Distinct(a) && Distinct(b) && forall v :: v in a <==> v in b
    ensures |a| == |b|
  {
    assert Elements(a) == Elements(b);
    DistinctCard(a);
    DistinctCard(b);
  }

  function Elements(s: seq<SpanId>): set<SpanId> {
    set v | v in s
  }

  /** A duplicate-free sequence has as many elements as its set. */
  lemma {:induction false} DistinctCard(s: seq<SpanId>)
    requires Distinct(s)
    ensures |Elements(s)| == |s|
  {
    if s != [] {
      assert Distinct(s[1..]);
      DistinctCard(s[1..]);
      assert Elements(s) == {s[0]} + Elements(s[1..]);
      assert s[0] !in Elements(s[1..]);
    }
  }

  /** What `main` does with one trace between reading it and writing its lines: the spans
      of the tree, the dependency graph over them and the sequence. There is one line per
      span of the tree, and the line of every span names its expected source. */
  method TraceSequence(t: Trace) returns (spans: seq<Span>, sequence: seq<string>)
    requires DistinctIds(Flatten(t.rootSpan))
    ensures spans == Flatten(t.rootSpan)
    ensures |sequence| == Size(t.rootSpan)
    ensures forall m :: 0 <= m < |spans| ==>
      FormatEdge(SortByStart(spans)[m], ExpectedParentSpan(spans, m)) in sequence
  {
    spans := ExtractSpans(t.rootSpan, []);
    assert [] + Flatten(t.rootSpan) == Flatten(t.rootSpan);
    var g := BuildDependencyGraph(spans);
    var order;
    order, sequence := GenerateSequence(g);
    forall m | 0 <= m < |spans|
      ensures FormatEdge(SortByStart(spans)[m], ExpectedParentSpan(spans, m)) in sequence
    {
      LineOfSpan(spans, g, order, m);
    }
  }

  /** Once every node is in `order`, the line of the `m`-th span in start order, naming
      its expected source, is among the lines. */
  lemma LineOfSpan(spans: seq<Span>, g: Graph, order: seq<SpanId>, m: int)
    requires Valid(g)
    requires g.nodes == Ids(spans)
    requires forall k :: 0 <= k < |spans| ==> g.spanOf[spans[k].spanId] == spans[k]
    requires 0 <= m < |spans|
    requires FirstPred(g, SortByStart(spans)[m].spanId) == ExpectedSource(spans, SortByStart(spans), m)
    requires forall v :: v in order <==> v in g.nodes
    ensures FormatEdge(SortByStart(spans)[m], ExpectedParentSpan(spans, m)) in Lines(g, order)
  {
    forall k | 0 <= k < |spans|
      ensures spans[k].spanId in g.spanOf
    {
      assert Ids(spans)[k] == spans[k].spanId;
    }
    BuiltEdgeLine(spans, g, m, g.edges);
    var v := SortByStart(spans)[m].spanId;
    assert v in order;
    var i :| 0 <= i < |order| && order[i] == v;
    LinesAt(g, order, i);
  }
}
