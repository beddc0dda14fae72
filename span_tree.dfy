/** The span tree of one trace (the `Span` and `Trace` records of transform4.py) and
    its pre-order flattening (`extract_spans`). */
module SpanTree {
  import opened Wrappers

  type SpanId = string

  /** One recorded unit of work. Times are whole milliseconds: `startMs` stands for
      `int(start_time.timestamp() * 1000)` and `durationMs` for `int(duration)`. The
      anomaly markers are carried but not read by the core. */
  datatype Span = Span(
    traceId: string,
    spanId: SpanId,
    parentSpanId: Option<string>,
    children: seq<Span>,
    startMs: int,
    durationMs: int,
    serviceName: string,
    anomaly: int,
    statusCode: Option<string>,
    operationName: Option<string>,
    rootCause: Option<bool>,
    latency: Option<int>,
    structure: Option<int>)

  /** A trace owns exactly one span tree. */
  datatype Trace = Trace(traceId: string, rootSpan: Span, spanCount: int, anomalyType: Option<int>)

  /** Number of spans in the tree rooted at `s`. */
  function Size(s: Span): nat
    decreases s, 1
  {
    1 + SizeFrom(s, 0)
  }

  /** Number of spans in the subtrees of `s.children[i..]`. */
  function SizeFrom(s: Span, i: nat): nat
    decreases s, 0, |s.children| - i
  {
    if i >= |s.children| then 0 else Size(s.children[i]) + SizeFrom(s, i + 1)
  }

  /** `x` is a span of the tree rooted at `t`. */
  predicate InTree(t: Span, x: Span)
    decreases t
  {
    x == t || exists i | 0 <= i < |t.children| :: InTree(t.children[i], x)
  }

  /** Pre-order: the root, then each child's subtree in stored order. */
  function Flatten(s: Span): seq<Span>
    decreases s, 1
  {
    [s] + FlattenFrom(s, 0)
  }

  /** The pre-order flattenings of `s.children[i..]`, one after the other. */
  function FlattenFrom(s: Span, i: nat): seq<Span>
    decreases s, 0, |s.children| - i
  {
    if i >= |s.children| then [] else Flatten(s.children[i]) + FlattenFrom(s, i + 1)
  }

  /** `extract_spans(span, spans)`: appends the pre-order flattening of the tree rooted
      at `span` to the accumulator `spans` (the list the Python code mutates in place is
      threaded through as a value). The caller's `spans=None` is the empty accumulator. */
  method ExtractSpans(span: Span, spans: seq<Span>) returns (result: seq<Span>)
    ensures result == spans + Flatten(span)
    ensures |result| == |spans| + Size(span)
    decreases span
  {
    result := spans + [span];
    var i := 0;
    while i < |span.children|
      invariant 0 <= i <= |span.children|
      invariant result + FlattenFrom(span, i) == spans + Flatten(span)
    {
      result := ExtractSpans(span.children[i], result);
      i := i + 1;
    }
    FlattenSize(span);
  }

  /** The flattening has one entry per span of the tree. */
  lemma {:induction false} FlattenSize(s: Span)
    ensures |Flatten(s)| == Size(s)
    decreases s, 1
  {
    FlattenFromSize(s, 0);
  }

  lemma {:induction false} FlattenFromSize(s: Span, i: nat)
    ensures |FlattenFrom(s, i)| == SizeFrom(s, i)
    decreases s, 0, |s.children| - i
  {
    if i < |s.children| {
      FlattenSize(s.children[i]);
      FlattenFromSize(s, i + 1);
    }
  }

  /** The flattening lists exactly the spans of the tree, root first. */
  lemma {:induction false} FlattenMembers(t: Span, x: Span)
    ensures Flatten(t)[0] == t
    ensures x in Flatten(t) <==> InTree(t, x)
    decreases t, 1
  {
    FlattenFromMembers(t, 0, x);
    if x in Flatten(t) && x != t {
      assert x in FlattenFrom(t, 0);
    }
  }

  lemma {:induction false} FlattenFromMembers(t: Span, i: nat, x: Span)
    ensures x in FlattenFrom(t, i) <==> exists k | i <= k < |t.children| :: InTree(t.children[k], x)
    decreases t, 0, |t.children| - i
  {
    if i < |t.children| {
      FlattenMembers(t.children[i], x);
      FlattenFromMembers(t, i + 1, x);
      if exists k | i <= k < |t.children| :: InTree(t.children[k], x) {
        var k :| i <= k < |t.children| && InTree(t.children[k], x);
        if k > i {
          assert x in FlattenFrom(t, i + 1);
        }
      }
    }
  }
}
