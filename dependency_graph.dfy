/** The dependency graph of one trace (`build_dependency_graph` in transform4.py): one
    node per span, a `parent` edge from a span's declared parent, and a `time` edge
    between neighbours in start-time order that start at most two seconds apart. */
module DependencyGraph {
  import opened Wrappers
  import opened SpanTree

  /** Largest start-time gap, in milliseconds, that still links two spans in time. */
  const MaxTimeGapMs: int := 2000

  datatype EdgeKind = ParentEdge | TimeEdge

  /** A directed graph over span ids as networkx's `DiGraph` keeps it: `nodes` in
      insertion order, the span stored on each node, the edges in the order they were
      first inserted (the order `predecessors` reports them in) and the kind last
      written on each edge. */
  datatype Graph = Graph(
    nodes: seq<SpanId>,
    spanOf: map<SpanId, Span>,
    edges: seq<(SpanId, SpanId)>,
    kind: map<(SpanId, SpanId), EdgeKind>)

  predicate HasEdge(g: Graph, u: SpanId, v: SpanId) {
    (u, v) in g.kind
  }

  /** Node ids are distinct, every node carries its span, the edge list and the kind
      map agree, and every edge joins two nodes. */
  ghost predicate Valid(g: Graph) {
    (forall i, j :: 0 <= i < j < |g.nodes| ==> g.nodes[i] != g.nodes[j]) &&
    (forall v :: v in g.spanOf <==> v in g.nodes) &&
    (forall v :: v in g.spanOf ==> g.spanOf[v].spanId == v) &&
    (forall e :: e in g.kind <==> e in g.edges) &&
    (forall e :: e in g.kind ==> e.0 in g.spanOf && e.1 in g.spanOf)
  }

  function Ids(spans: seq<Span>): (r: seq<SpanId>)
    ensures |r| == |spans| && forall i :: 0 <= i < |spans| ==> r[i] == spans[i].spanId
  {
    seq(|spans|, i requires 0 <= i < |spans| => spans[i].spanId)
  }

  /** The core requires span ids to be unique within a trace. */
  predicate DistinctIds(spans: seq<Span>) {
    forall i, j :: 0 <= i < j < |spans| ==> spans[i].spanId != spans[j].spanId
  }

  /** The source of the first edge into `w` in `es`, if any. */
  function FirstSource(es: seq<(SpanId, SpanId)>, w: SpanId): (r: Option<SpanId>)
    ensures r.Some? ==> (r.value, w) in es
    ensures r.None? <==> forall j :: 0 <= j < |es| ==> es[j].1 != w
  {
    if es == [] then None
    else if es[0].1 == w then Some(es[0].0)
    else FirstSource(es[1..], w)
  }

  /** `list(graph.predecessors(w))[0]` when there is one. */
  function FirstPred(g: Graph, w: SpanId): Option<SpanId> {
    FirstSource(g.edges, w)
  }

  /** `graph.add_edge(u, v, type=k)`: a new pair is appended, an existing pair only has
      its kind overwritten. */
  function AddEdge(g: Graph, u: SpanId, v: SpanId, k: EdgeKind): (r: Graph)
    ensures r.nodes == g.nodes && r.spanOf == g.spanOf
    ensures r.kind == g.kind[(u, v) := k]
  {
    if (u, v) in g.kind then g.(kind := g.kind[(u, v) := k])
    else g.(edges := g.edges + [(u, v)], kind := g.kind[(u, v) := k])
  }

  /** Appending an edge leaves every earlier first source in place. */
  lemma {:induction false} FirstSourceAppend(es: seq<(SpanId, SpanId)>, e: (SpanId, SpanId), w: SpanId)
    ensures FirstSource(es + [e], w) ==
      if FirstSource(es, w).Some? then FirstSource(es, w) else if e.1 == w then Some(e.0) else None
  {
    if es != [] {
      assert (es + [e])[1..] == es[1..] + [e];
      FirstSourceAppend(es[1..], e, w);
    }
  }

  /** Adding an edge gives its target a first predecessor only when it had none. */
  lemma FirstPredAddEdge(g: Graph, u: SpanId, v: SpanId, k: EdgeKind, w: SpanId)
    requires forall e :: e in g.kind <==> e in g.edges
    ensures FirstPred(AddEdge(g, u, v, k), w) ==
      if FirstPred(g, w).None? && w == v then Some(u) else FirstPred(g, w)
  {
    if (u, v) !in g.kind {
      FirstSourceAppend(g.edges, (u, v), w);
    } else if w == v {
      var j :| 0 <= j < |g.edges| && g.edges[j] == (u, v);
      assert g.edges[j].1 == w;
    }
  }

  /** `span.parent_span_id and span.parent_span_id in graph.nodes`: the parent id is
      neither `None` nor empty and names a node. */
  function ParentSource(s: Span, nodes: seq<SpanId>): (r: Option<SpanId>)
    ensures r.Some? <==> s.parentSpanId.Some? && s.parentSpanId.value != "" && s.parentSpanId.value in nodes
    ensures r.Some? ==> r == s.parentSpanId
  {
    match s.parentSpanId
    case Some(p) => if p != "" && p in nodes then Some(p) else None
    case None => None
  }

  /** A `parent` edge `u -> v` is due. */
  ghost predicate ParentLink(spans: seq<Span>, u: SpanId, v: SpanId) {
    exists k :: 0 <= k < |spans| && spans[k].spanId == v && ParentSource(spans[k], Ids(spans)) == Some(u)
  }

  // ---- stable sort by start time (`sorted(spans, key=lambda s: s.start_time)`) ----

  /** Each span starts no earlier than the one before it. */
  predicate SortedByStart(r: seq<Span>) {
    forall i :: 0 < i < |r| ==> r[i - 1].startMs <= r[i].startMs
  }

  /** Places `x` before the first span that does not start earlier than it. */
  function Insert(x: Span, r: seq<Span>): (q: seq<Span>)
    ensures multiset(q) == multiset(r) + multiset{x}
    ensures |q| == |r| + 1
    ensures q[0] == x || (r != [] && q[0] == r[0])
  {
    if r == [] || x.startMs <= r[0].startMs then [x] + r
    else
      assert r == [r[0]] + r[1..];
      [r[0]] + Insert(x, r[1..])
  }

  /** Inserting into a sorted sequence keeps it sorted. */
  lemma {:induction false} InsertSorted(x: Span, r: seq<Span>)
    requires SortedByStart(r)
    ensures SortedByStart(Insert(x, r))
  {
    if r != [] && x.startMs > r[0].startMs {
      var t := Insert(x, r[1..]);
      InsertSorted(x, r[1..]);
      assert Insert(x, r) == [r[0]] + t;
      assert r[0].startMs <= t[0].startMs;
    }
  }

  /** Insertion sort: sort the tail, then put the head in front of the spans that
      start at the same time, so that equal start times keep their input order. */
  function SortByStart(s: seq<Span>): (r: seq<Span>)
    ensures multiset(r) == multiset(s) && |r| == |s|
    ensures SortedByStart(r)
  {
    if s == [] then []
    else
      assert s == [s[0]] + s[1..];
      InsertSorted(s[0], SortByStart(s[1..]));
      Insert(s[0], SortByStart(s[1..]))
  }

  /** In a sorted sequence a later span never starts earlier. */
  lemma {:induction false} SortedMono(r: seq<Span>, i: int, j: int)
    requires SortedByStart(r) && 0 <= i < |r| && 0 <= j < |r|
    ensures i <= j ==> r[i].startMs <= r[j].startMs
    decreases j - i
  {
    if i < j {
      SortedMono(r, i, j - 1);
    }
  }

  /** The spans of `s` that start at `t`, in order. */
  function StartingAt(s: seq<Span>, t: int): seq<Span> {
    if s == [] then [] else (if s[0].startMs == t then [s[0]] else []) + StartingAt(s[1..], t)
  }

  /** Inserting `x` adds it to the spans of its own start time, in front of them. */
  lemma {:induction false} InsertStartingAt(x: Span, r: seq<Span>, t: int)
    ensures StartingAt(Insert(x, r), t) == (if x.startMs == t then [x] else []) + StartingAt(r, t)
  {
    if r == [] || x.startMs <= r[0].startMs {
      assert ([x] + r)[1..] == r;
    } else {
      var q := Insert(x, r[1..]);
      assert ([r[0]] + q)[1..] == q;
      InsertStartingAt(x, r[1..], t);
      // r[0] starts strictly before x, so at most one of the two is kept
      calc {
        StartingAt(Insert(x, r), t);
        (if r[0].startMs == t then [r[0]] else []) + StartingAt(q, t);
        (if r[0].startMs == t then [r[0]] else []) + ((if x.startMs == t then [x] else []) + StartingAt(r[1..], t));
        (if x.startMs == t then [x] else []) + ((if r[0].startMs == t then [r[0]] else []) + StartingAt(r[1..], t));
        (if x.startMs == t then [x] else []) + StartingAt(r, t);
      }
    }
  }

  /** The sort is stable: for every start time, the spans starting then appear in the
      same relative order as in the input. */
  lemma {:induction false} SortByStartStable(s: seq<Span>, t: int)
    ensures StartingAt(SortByStart(s), t) == StartingAt(s, t)
  {
    if s != [] {
      SortByStartStable(s[1..], t);
      InsertStartingAt(s[0], SortByStart(s[1..]), t);
      assert s == [s[0]] + s[1..];
    }
  }

  // ---- temporal adjacency ----

  /** Neighbours `k` and `k + 1` of the sorted spans start more than 0 and at most
      two seconds apart. */
  predicate TimeStep(sorted: seq<Span>, k: int)
    requires 0 <= k && k + 1 < |sorted|
  {
    0 < sorted[k + 1].startMs - sorted[k].startMs <= MaxTimeGapMs
  }

  /** A `time` edge `u -> v` from one of the first `n` neighbour pairs. */
  ghost predicate TimeLinkBefore(sorted: seq<Span>, n: int, u: SpanId, v: SpanId) {
    exists k :: 0 <= k < n && k + 1 < |sorted| && TimeStep(sorted, k) && sorted[k].spanId == u && sorted[k + 1].spanId == v
  }

  /** A `time` edge `u -> v` is due. */
  ghost predicate TimeLink(sorted: seq<Span>, u: SpanId, v: SpanId) {
    TimeLinkBefore(sorted, |sorted|, u, v)
  }

  /** The first predecessor the graph is meant to report for `sorted[m]`: its causal
      parent when it has one, otherwise its temporal predecessor, otherwise none. */
  function ExpectedSource(spans: seq<Span>, sorted: seq<Span>, m: int): Option<SpanId>
    requires 0 <= m < |sorted|
  {
    var p := ParentSource(sorted[m], Ids(spans));
    if p.Some? then p
    else if m > 0 && TimeStep(sorted, m - 1) then Some(sorted[m - 1].spanId)
    else None
  }

  /** Every `time` link joins a span to one that starts strictly later: the spans stored
      on the graph under its two ends are the two neighbours of the sorted order. */
  lemma TimeLinkForward(spans: seq<Span>, spanOf: map<SpanId, Span>, u: SpanId, v: SpanId)
    requires forall k :: 0 <= k < |spans| ==> spans[k].spanId in spanOf && spanOf[spans[k].spanId] == spans[k]
    requires TimeLink(SortByStart(spans), u, v)
    ensures u in spanOf && v in spanOf && spanOf[u].startMs < spanOf[v].startMs
  {
    var sorted := SortByStart(spans);
    var k :| 0 <= k < |sorted| && k + 1 < |sorted| && TimeStep(sorted, k) && sorted[k].spanId == u && sorted[k + 1].spanId == v;
    assert sorted[k] in multiset(spans) && sorted[k + 1] in multiset(spans);
    var p :| 0 <= p < |spans| && spans[p] == sorted[k];
    var q :| 0 <= q < |spans| && spans[q] == sorted[k + 1];
  }

  /** A reordering of spans with distinct ids has distinct ids. */
  lemma DistinctIdsPermutation(a: seq<Span>, b: seq<Span>)
    requires multiset(a) == multiset(b) && DistinctIds(a)
    ensures DistinctIds(b)
  {
    forall i, j | 0 <= i < j < |b| ensures b[i].spanId != b[j].spanId {
      if b[i].spanId == b[j].spanId {
        assert b[i] in multiset(a) && b[j] in multiset(a);
        var p :| 0 <= p < |a| && a[p] == b[i];
        var q :| 0 <= q < |a| && a[q] == b[j];
        if p == q {
          assert b == b[..i] + [b[i]] + b[i + 1..j] + [b[j]] + b[j + 1..];
          assert multiset(b)[b[i]] >= 2;
          CountAtMostOne(a, p);
          assert false;
        }
      }
    }
  }

  /** In a sequence with distinct ids every span occurs once. */
  lemma {:induction false} CountAtMostOne(a: seq<Span>, p: int)
    requires DistinctIds(a) && 0 <= p < |a|
    ensures multiset(a)[a[p]] == 1
  {
    assert a == a[..p] + [a[p]] + a[p + 1..];
    assert a[p] !in a[..p] by {
      forall k | 0 <= k < p ensures a[k] != a[p] { assert a[k].spanId != a[p].spanId; }
    }
    assert a[p] !in a[p + 1..] by {
      forall k | p + 1 <= k < |a| ensures a[k] != a[p] { assert a[k].spanId != a[p].spanId; }
    }
  }

  // ---- the builder ----

  /** `build_dependency_graph(spans)`: adds the nodes, then the `parent` edges in span
      order, then the `time` edges along the stable start-time order. The result has
      exactly one node per span, exactly the due edges, `time` as the kind of every
      edge that is also a temporal link (it is written last), and for every span, as
      first predecessor, its causal parent if it has one, else its temporal
      predecessor. */
  method BuildDependencyGraph(spans: seq<Span>) returns (g: Graph)
    requires DistinctIds(spans)
    ensures Valid(g)
    ensures g.nodes == Ids(spans)
    ensures forall k :: 0 <= k < |spans| ==> g.spanOf[spans[k].spanId] == spans[k]
    ensures forall u, v :: HasEdge(g, u, v) <==> ParentLink(spans, u, v) || TimeLink(SortByStart(spans), u, v)
    ensures forall u, v :: HasEdge(g, u, v) ==> (g.kind[(u, v)] == TimeEdge <==> TimeLink(SortByStart(spans), u, v))
    ensures forall m :: 0 <= m < |spans| ==>
      FirstPred(g, SortByStart(spans)[m].spanId) == ExpectedSource(spans, SortByStart(spans), m)
  {
    g := Graph([], map[], [], map[]);
    var ids := Ids(spans);
    var i := 0;
    while i < |spans|
      invariant 0 <= i <= |spans|
      invariant g.nodes == ids[..i]
      invariant forall v :: v in g.spanOf <==> v in g.nodes
      invariant forall k :: 0 <= k < i ==> g.spanOf[spans[k].spanId] == spans[k]
      invariant g.edges == [] && g.kind == map[]
    {
      g := g.(nodes := g.nodes + [spans[i].spanId], spanOf := g.spanOf[spans[i].spanId := spans[i]]);
      i := i + 1;
      assert ids[..i] == ids[..i - 1] + [ids[i - 1]];
    }
    assert ids[..i] == ids;
    g := AddParentEdges(spans, g);
    g := AddTimeEdges(spans, g);
    BuiltEdgesAreDue(spans, SortByStart(spans), g);
  }

  /** The gathered edge sets, read as the due `parent` and `time` links. */
  lemma BuiltEdgesAreDue(spans: seq<Span>, sorted: seq<Span>, g: Graph)
    requires |sorted| == |spans|
    requires g.kind.Keys == ParentEdgesOf(spans, |spans|) + TimeEdgesOf(sorted, if |sorted| == 0 then 0 else |sorted| - 1)
    requires forall e :: e in g.kind ==>
      (g.kind[e] == TimeEdge <==> e in TimeEdgesOf(sorted, if |sorted| == 0 then 0 else |sorted| - 1))
    ensures forall u, v :: HasEdge(g, u, v) <==> ParentLink(spans, u, v) || TimeLink(sorted, u, v)
    ensures forall u, v :: HasEdge(g, u, v) ==> (g.kind[(u, v)] == TimeEdge <==> TimeLink(sorted, u, v))
  {
    forall u: SpanId, v: SpanId
      ensures HasEdge(g, u, v) <==> ParentLink(spans, u, v) || TimeLink(sorted, u, v)
    {
      ParentEdgesOfLink(spans, |spans|, (u, v));
      TimeEdgesAreDue(sorted, u, v);
    }
    forall u: SpanId, v: SpanId | HasEdge(g, u, v)
      ensures g.kind[(u, v)] == TimeEdge <==> TimeLink(sorted, u, v)
    {
      TimeEdgesAreDue(sorted, u, v);
    }
  }

  /** All neighbour pairs gathered are the due `time` links. */
  lemma TimeEdgesAreDue(sorted: seq<Span>, u: SpanId, v: SpanId)
    ensures (u, v) in TimeEdgesOf(sorted, if |sorted| == 0 then 0 else |sorted| - 1) <==> TimeLink(sorted, u, v)
  {
    var n := if |sorted| == 0 then 0 else |sorted| - 1;
    TimeEdgesOfLink(sorted, n, (u, v));
    if TimeLink(sorted, u, v) {
      var k :| 0 <= k < |sorted| && k + 1 < |sorted| && TimeStep(sorted, k) && sorted[k].spanId == u && sorted[k + 1].spanId == v;
      assert TimeLinkBefore(sorted, n, u, v);
    }
  }

  /** `AddEdge` between two nodes keeps the graph well formed. */
  lemma AddEdgeValid(g: Graph, u: SpanId, v: SpanId, k: EdgeKind)
    requires Valid(g) && u in g.spanOf && v in g.spanOf
    ensures Valid(AddEdge(g, u, v, k))
    ensures forall e :: e in AddEdge(g, u, v, k).kind <==> e in g.kind || e == (u, v)
  {
  }

  /** The `parent` edges due for the first `n` spans, gathered one span at a time. */
  function ParentEdgesOf(spans: seq<Span>, n: nat): set<(SpanId, SpanId)>
    requires n <= |spans|
  {
    if n == 0 then {}
    else
      var s := spans[n - 1];
      var p := ParentSource(s, Ids(spans));
      ParentEdgesOf(spans, n - 1) + (if p.Some? then {(p.value, s.spanId)} else {})
  }

  /** The gathered `parent` edges are exactly the due ones. */
  lemma {:induction false} ParentEdgesOfLink(spans: seq<Span>, n: nat, e: (SpanId, SpanId))
    requires n <= |spans|
    ensures e in ParentEdgesOf(spans, n) <==>
      exists k :: 0 <= k < n && spans[k].spanId == e.1 && ParentSource(spans[k], Ids(spans)) == Some(e.0)
  {
    if n > 0 {
      ParentEdgesOfLink(spans, n - 1, e);
      if e !in ParentEdgesOf(spans, n - 1) && e in ParentEdgesOf(spans, n) {
        assert spans[n - 1].spanId == e.1;
      }
    }
  }

  /** What holds after the parent-edge loop has seen the first `i` spans. */
  ghost predicate ParentLoopInv(spans: seq<Span>, g0: Graph, g: Graph, i: int) {
    0 <= i <= |spans| && Valid(g) && g.nodes == g0.nodes && g.spanOf == g0.spanOf && g.nodes == Ids(spans) &&
    g.kind.Keys == ParentEdgesOf(spans, i) &&
    (forall e :: e in g.kind ==> g.kind[e] == ParentEdge) &&
    (forall k :: 0 <= k < |spans| ==>
      FirstPred(g, spans[k].spanId) == if k < i then ParentSource(spans[k], g.nodes) else None)
  }

  /** Before the parent-edge loop: no edges yet, so no span has a predecessor. */
  lemma ParentLoopInit(spans: seq<Span>, g0: Graph)
    requires Valid(g0) && g0.nodes == Ids(spans)
    requires g0.edges == [] && g0.kind == map[]
    ensures ParentLoopInv(spans, g0, g0, 0)
  {
  }

  /** After the parent-edge loop: every span has its causal parent as first predecessor. */
  lemma ParentLoopDone(spans: seq<Span>, g0: Graph, g: Graph)
    requires ParentLoopInv(spans, g0, g, |spans|)
    ensures Valid(g) && g.nodes == g0.nodes && g.spanOf == g0.spanOf
    ensures g.kind.Keys == ParentEdgesOf(spans, |spans|)
    ensures forall e :: e in g.kind ==> g.kind[e] == ParentEdge
    ensures forall k :: 0 <= k < |spans| ==> FirstPred(g, spans[k].spanId) == ParentSource(spans[k], g.nodes)
  {
  }

  /** One pass of the parent-edge loop body. */
  function ParentStep(g: Graph, s: Span): Graph {
    if s.parentSpanId.Some? && s.parentSpanId.value != "" && s.parentSpanId.value in g.nodes
    then AddEdge(g, s.parentSpanId.value, s.spanId, ParentEdge)
    else g
  }

  /** The parent-edge loop body keeps `ParentLoopInv`; each part is proved on its own. */
  lemma ParentStepKeepsInv(spans: seq<Span>, g0: Graph, g: Graph, i: int)
    requires DistinctIds(spans) && ParentLoopInv(spans, g0, g, i) && i < |spans|
    ensures ParentLoopInv(spans, g0, ParentStep(g, spans[i]), i + 1)
  {
    ParentStepValid(spans, g0, g, i);
    ParentStepEdges(spans, g0, g, i);
    ParentStepKinds(g, spans[i]);
    ParentStepFirstPred(spans, g, i);
  }

  lemma ParentStepValid(spans: seq<Span>, g0: Graph, g: Graph, i: int)
    requires DistinctIds(spans) && ParentLoopInv(spans, g0, g, i) && i < |spans|
    ensures Valid(ParentStep(g, spans[i]))
  {
    var s := spans[i];
    assert s.spanId in g.spanOf;
    if ParentSource(s, g.nodes).Some? {
      AddEdgeValid(g, s.parentSpanId.value, s.spanId, ParentEdge);
    }
  }

  lemma ParentStepEdges(spans: seq<Span>, g0: Graph, g: Graph, i: int)
    requires 0 <= i < |spans| && g.nodes == Ids(spans) && g.kind.Keys == ParentEdgesOf(spans, i)
    ensures ParentStep(g, spans[i]).kind.Keys == ParentEdgesOf(spans, i + 1)
  {
    var s := spans[i];
    var p := ParentSource(s, Ids(spans));
    assert ParentEdgesOf(spans, i + 1) == ParentEdgesOf(spans, i) + (if p.Some? then {(p.value, s.spanId)} else {});
    if p.Some? {
      assert ParentStep(g, s).kind == g.kind[(p.value, s.spanId) := ParentEdge];
    } else {
      assert ParentStep(g, s) == g;
    }
  }

  lemma ParentStepKinds(g: Graph, s: Span)
    requires forall e :: e in g.kind ==> g.kind[e] == ParentEdge
    ensures forall e :: e in ParentStep(g, s).kind ==> ParentStep(g, s).kind[e] == ParentEdge
  {
  }

  lemma ParentStepFirstPred(spans: seq<Span>, g: Graph, i: int)
    requires DistinctIds(spans) && 0 <= i < |spans|
    requires forall e :: e in g.kind <==> e in g.edges
    requires forall k :: 0 <= k < |spans| ==>
      FirstPred(g, spans[k].spanId) == if k < i then ParentSource(spans[k], g.nodes) else None
    ensures forall k :: 0 <= k < |spans| ==>
      FirstPred(ParentStep(g, spans[i]), spans[k].spanId) == if k < i + 1 then ParentSource(spans[k], g.nodes) else None
  {
    var s := spans[i];
    if ParentSource(s, g.nodes).Some? {
      forall k | 0 <= k < |spans|
        ensures FirstPred(ParentStep(g, s), spans[k].spanId) == if k < i + 1 then ParentSource(spans[k], g.nodes) else None
      {
        FirstPredAddEdge(g, s.parentSpanId.value, s.spanId, ParentEdge, spans[k].spanId);
      }
    }
  }

  /** The second loop of `build_dependency_graph`: a `parent` edge into every span
      whose parent id is set and names a node. */
  method AddParentEdges(spans: seq<Span>, g0: Graph) returns (g: Graph)
    requires DistinctIds(spans) && Valid(g0) && g0.nodes == Ids(spans)
    requires g0.edges == [] && g0.kind == map[]
    ensures Valid(g) && g.nodes == g0.nodes && g.spanOf == g0.spanOf
    ensures g.kind.Keys == ParentEdgesOf(spans, |spans|)
    ensures forall e :: e in g.kind ==> g.kind[e] == ParentEdge
    ensures forall k :: 0 <= k < |spans| ==> FirstPred(g, spans[k].spanId) == ParentSource(spans[k], g.nodes)
  {
    g := g0;
    var i := 0;
    ParentLoopInit(spans, g0);
    while i < |spans|
      invariant 0 <= i <= |spans|
      invariant ParentLoopInv(spans, g0, g, i)
    {
      ParentStepKeepsInv(spans, g0, g, i);
      var s := spans[i];
      ghost var next := ParentStep(g, s);
      if s.parentSpanId.Some? && s.parentSpanId.value != "" && s.parentSpanId.value in g.nodes {
        g := AddEdge(g, s.parentSpanId.value, s.spanId, ParentEdge);
      }
      assert g == next;
      assert ParentLoopInv(spans, g0, g, i + 1);
      i := i + 1;
    }
    ParentLoopDone(spans, g0, g);
  }

  /** The `time` edges due for the first `n` neighbour pairs of `sorted`. */
  function TimeEdgesOf(sorted: seq<Span>, n: nat): set<(SpanId, SpanId)>
    requires n == 0 || n < |sorted|
  {
    if n == 0 then {}
    else TimeEdgesOf(sorted, n - 1) + (if TimeStep(sorted, n - 1) then {(sorted[n - 1].spanId, sorted[n].spanId)} else {})
  }

  /** The gathered `time` edges are exactly the due ones. */
  lemma {:induction false} TimeEdgesOfLink(sorted: seq<Span>, n: nat, e: (SpanId, SpanId))
    requires n == 0 || n < |sorted|
    ensures e in TimeEdgesOf(sorted, n) <==> TimeLinkBefore(sorted, n, e.0, e.1)
  {
    if n > 0 {
      TimeEdgesOfLink(sorted, n - 1, e);
      if TimeLinkBefore(sorted, n, e.0, e.1) {
        var k :| 0 <= k < n && k + 1 < |sorted| && TimeStep(sorted, k) && sorted[k].spanId == e.0 && sorted[k + 1].spanId == e.1;
        if k < n - 1 {
          assert TimeLinkBefore(sorted, n - 1, e.0, e.1);
        }
      }
    }
  }

  /** The first predecessor `sorted[m]` has once the first `i` neighbour pairs are done. */
  function ExpectedSourceBefore(spans: seq<Span>, sorted: seq<Span>, m: int, i: int): Option<SpanId>
    requires 0 <= m < |sorted|
  {
    var p := ParentSource(sorted[m], Ids(spans));
    if p.Some? then p
    else if 0 < m <= i && TimeStep(sorted, m - 1) then Some(sorted[m - 1].spanId)
    else None
  }

  /** What holds after the time-edge loop has looked at the first `i` neighbour pairs. */
  ghost predicate TimeLoopInv(spans: seq<Span>, sorted: seq<Span>, g0: Graph, g: Graph, i: int) {
    0 <= i && (i == 0 || i < |sorted|) && TimeLoopFrame(spans, sorted, g0, g) &&
    TimeLoopEdges(spans, sorted, g, i) && TimeLoopFirstPred(spans, sorted, g, i)
  }

  ghost predicate TimeLoopFrame(spans: seq<Span>, sorted: seq<Span>, g0: Graph, g: Graph) {
    Valid(g) && g.nodes == g0.nodes && g.spanOf == g0.spanOf && g.nodes == Ids(spans) &&
    (forall m :: 0 <= m < |sorted| ==> sorted[m].spanId in g.spanOf)
  }

  ghost predicate TimeLoopEdges(spans: seq<Span>, sorted: seq<Span>, g: Graph, i: int)
    requires 0 <= i && (i == 0 || i < |sorted|)
  {
    g.kind.Keys == ParentEdgesOf(spans, |spans|) + TimeEdgesOf(sorted, i) &&
    (forall e :: e in g.kind ==> (g.kind[e] == TimeEdge <==> e in TimeEdgesOf(sorted, i)))
  }

  ghost predicate TimeLoopFirstPred(spans: seq<Span>, sorted: seq<Span>, g: Graph, i: int) {
    forall m :: 0 <= m < |sorted| ==> FirstPred(g, sorted[m].spanId) == ExpectedSourceBefore(spans, sorted, m, i)
  }

  /** One pass of the time-edge loop body. */
  function TimeStepEdge(g: Graph, sorted: seq<Span>, i: int): Graph
    requires 0 <= i && i + 1 < |sorted|
  {
    if TimeStep(sorted, i) then AddEdge(g, sorted[i].spanId, sorted[i + 1].spanId, TimeEdge) else g
  }

  /** The time-edge loop body keeps `TimeLoopInv`; each part is proved on its own. */
  lemma TimeStepKeepsInv(spans: seq<Span>, sorted: seq<Span>, g0: Graph, g: Graph, i: int)
    requires DistinctIds(sorted) && TimeLoopInv(spans, sorted, g0, g, i) && i + 1 < |sorted|
    ensures TimeStep(sorted, i) ==>
      TimeLoopInv(spans, sorted, g0, AddEdge(g, sorted[i].spanId, sorted[i + 1].spanId, TimeEdge), i + 1)
    ensures !TimeStep(sorted, i) ==> TimeLoopInv(spans, sorted, g0, g, i + 1)
  {
    TimeStepValid(spans, sorted, g0, g, i);
    TimeStepEdges(spans, sorted, g0, g, i);
    TimeStepKinds(spans, sorted, g0, g, i);
    TimeStepFirstPred(spans, sorted, g0, g, i);
  }

  lemma TimeStepValid(spans: seq<Span>, sorted: seq<Span>, g0: Graph, g: Graph, i: int)
    requires TimeLoopInv(spans, sorted, g0, g, i) && i + 1 < |sorted|
    ensures Valid(TimeStepEdge(g, sorted, i))
  {
    if TimeStep(sorted, i) {
      AddEdgeValid(g, sorted[i].spanId, sorted[i + 1].spanId, TimeEdge);
    }
  }

  lemma TimeStepEdges(spans: seq<Span>, sorted: seq<Span>, g0: Graph, g: Graph, i: int)
    requires 0 <= i && i + 1 < |sorted| && g.kind.Keys == ParentEdgesOf(spans, |spans|) + TimeEdgesOf(sorted, i)
    ensures TimeStepEdge(g, sorted, i).kind.Keys == ParentEdgesOf(spans, |spans|) + TimeEdgesOf(sorted, i + 1)
  {
    if TimeStep(sorted, i) {
      assert TimeStepEdge(g, sorted, i).kind == g.kind[(sorted[i].spanId, sorted[i + 1].spanId) := TimeEdge];
    }
  }

  lemma TimeStepKinds(spans: seq<Span>, sorted: seq<Span>, g0: Graph, g: Graph, i: int)
    requires 0 <= i && i + 1 < |sorted|
    requires forall e :: e in g.kind ==> (g.kind[e] == TimeEdge <==> e in TimeEdgesOf(sorted, i))
    ensures forall e :: e in TimeStepEdge(g, sorted, i).kind ==>
      (TimeStepEdge(g, sorted, i).kind[e] == TimeEdge <==> e in TimeEdgesOf(sorted, i + 1))
  {
  }

  lemma TimeStepFirstPred(spans: seq<Span>, sorted: seq<Span>, g0: Graph, g: Graph, i: int)
    requires DistinctIds(sorted) && 0 <= i && i + 1 < |sorted|
    requires forall e :: e in g.kind <==> e in g.edges
    requires forall m :: 0 <= m < |sorted| ==> FirstPred(g, sorted[m].spanId) == ExpectedSourceBefore(spans, sorted, m, i)
    ensures forall m :: 0 <= m < |sorted| ==>
      FirstPred(TimeStepEdge(g, sorted, i), sorted[m].spanId) == ExpectedSourceBefore(spans, sorted, m, i + 1)
  {
    if TimeStep(sorted, i) {
      forall m | 0 <= m < |sorted|
        ensures FirstPred(TimeStepEdge(g, sorted, i), sorted[m].spanId) == ExpectedSourceBefore(spans, sorted, m, i + 1)
      {
        FirstPredAddEdge(g, sorted[i].spanId, sorted[i + 1].spanId, TimeEdge, sorted[m].spanId);
      }
    }
  }

  /** Before the time-edge loop, the graph holds the nodes and `parent` edges only. */
  lemma TimeLoopInit(spans: seq<Span>, sorted: seq<Span>, g0: Graph)
    requires multiset(sorted) == multiset(spans)
    requires DistinctIds(spans) && Valid(g0) && g0.nodes == Ids(spans)
    requires g0.kind.Keys == ParentEdgesOf(spans, |spans|)
    requires forall e :: e in g0.kind ==> g0.kind[e] == ParentEdge
    requires forall k :: 0 <= k < |spans| ==> FirstPred(g0, spans[k].spanId) == ParentSource(spans[k], g0.nodes)
    ensures TimeLoopInv(spans, sorted, g0, g0, 0)
  {
    TimeLoopInitFirstPred(spans, sorted, g0);
    TimeLoopInitEdges(spans, sorted, g0);
  }

  lemma TimeLoopInitFirstPred(spans: seq<Span>, sorted: seq<Span>, g0: Graph)
    requires multiset(sorted) == multiset(spans)
    requires Valid(g0) && g0.nodes == Ids(spans)
    requires forall k :: 0 <= k < |spans| ==> FirstPred(g0, spans[k].spanId) == ParentSource(spans[k], g0.nodes)
    ensures TimeLoopFrame(spans, sorted, g0, g0) && TimeLoopFirstPred(spans, sorted, g0, 0)
  {
    forall m | 0 <= m < |sorted|
      ensures sorted[m].spanId in g0.spanOf
      ensures FirstPred(g0, sorted[m].spanId) == ExpectedSourceBefore(spans, sorted, m, 0)
    {
      TimeLoopInitAt(spans, sorted, g0, m);
    }
  }

  lemma TimeLoopInitEdges(spans: seq<Span>, sorted: seq<Span>, g0: Graph)
    requires g0.kind.Keys == ParentEdgesOf(spans, |spans|)
    requires forall e :: e in g0.kind ==> g0.kind[e] == ParentEdge
    ensures TimeLoopEdges(spans, sorted, g0, 0)
  {
    assert TimeEdgesOf(sorted, 0) == {};
  }

  /** Before the time-edge loop, one span of the sorted order has its `parent` source. */
  lemma TimeLoopInitAt(spans: seq<Span>, sorted: seq<Span>, g0: Graph, m: int)
    requires multiset(sorted) == multiset(spans) && 0 <= m < |sorted|
    requires Valid(g0) && g0.nodes == Ids(spans)
    requires forall k :: 0 <= k < |spans| ==> FirstPred(g0, spans[k].spanId) == ParentSource(spans[k], g0.nodes)
    ensures sorted[m].spanId in g0.spanOf
    ensures FirstPred(g0, sorted[m].spanId) == ExpectedSourceBefore(spans, sorted, m, 0)
  {
    assert sorted[m] in multiset(spans);
    var k :| 0 <= k < |spans| && spans[k] == sorted[m];
    assert FirstPred(g0, spans[k].spanId) == ParentSource(spans[k], g0.nodes);
  }

  /** After the time-edge loop, every neighbour pair has been looked at. */
  lemma TimeLoopDone(spans: seq<Span>, sorted: seq<Span>, g0: Graph, g: Graph, i: int)
    requires |sorted| == |spans| && TimeLoopInv(spans, sorted, g0, g, i) && i + 1 >= |sorted|
    ensures i == if |spans| == 0 then 0 else |spans| - 1
    ensures forall m :: 0 <= m < |sorted| ==> FirstPred(g, sorted[m].spanId) == ExpectedSource(spans, sorted, m)
  {
  }

  /** The third loop of `build_dependency_graph`: a `time` edge between neighbours of
      the stable start-time order whose start times differ by more than 0 and at most
      2000 ms. */
  method AddTimeEdges(spans: seq<Span>, g0: Graph) returns (g: Graph)
    requires DistinctIds(spans) && Valid(g0) && g0.nodes == Ids(spans)
    requires g0.kind.Keys == ParentEdgesOf(spans, |spans|)
    requires forall e :: e in g0.kind ==> g0.kind[e] == ParentEdge
    requires forall k :: 0 <= k < |spans| ==> FirstPred(g0, spans[k].spanId) == ParentSource(spans[k], g0.nodes)
    ensures Valid(g) && g.nodes == g0.nodes && g.spanOf == g0.spanOf
    ensures g.kind.Keys == ParentEdgesOf(spans, |spans|) + TimeEdgesOf(SortByStart(spans), if |spans| == 0 then 0 else |spans| - 1)
    ensures forall e :: e in g.kind ==>
      (g.kind[e] == TimeEdge <==> e in TimeEdgesOf(SortByStart(spans), if |spans| == 0 then 0 else |spans| - 1))
    ensures forall m :: 0 <= m < |spans| ==>
      FirstPred(g, SortByStart(spans)[m].spanId) == ExpectedSource(spans, SortByStart(spans), m)
  {
    var sorted := SortByStart(spans);
    DistinctIdsPermutation(spans, sorted);
    TimeLoopInit(spans, sorted, g0);
    g := g0;
    var i := 0;
    while i + 1 < |sorted|
      invariant 0 <= i && (i == 0 || i < |sorted|)
      invariant TimeLoopInv(spans, sorted, g0, g, i)
    {
      TimeStepKeepsInv(spans, sorted, g0, g, i);
      if TimeStep(sorted, i) {
        g := AddEdge(g, sorted[i].spanId, sorted[i + 1].spanId, TimeEdge);
      }
      i := i + 1;
    }
    TimeLoopDone(spans, sorted, g0, g, i);
  }

  /** `ExpectedSourceBefore` once every neighbour pair has been looked at. */
  lemma ExpectedSourceComplete(spans: seq<Span>, sorted: seq<Span>, m: int)
    requires 0 <= m < |sorted|
    ensures ExpectedSourceBefore(spans, sorted, m, |sorted| - 1) == ExpectedSource(spans, sorted, m)
  {
  }
}
