# Trace edge sequencing and latency statistics, in Dafny

This project models the core of a distributed-tracing preprocessing pipeline and proves
properties of the model. The pipeline turns the span tree of one request into a textual
"edge sequence" and annotates that sequence with latency statistics. The model covers:

- **the span tree and its flattening** (`transform4.py`: `Span`, `Trace`,
  `extract_spans`). Module `SpanTree`.
- **one span as an edge line** (`get_communication_type`, `format_edge`). Module
  `EdgeFormat`.
- **the dependency graph** (`build_dependency_graph`). A node per span, a `parent` edge
  from a span's declared parent when that parent is a node, and a `time` edge between
  neighbours of the stable start-time order whose starts differ by more than 0 and at
  most 2000 ms. Module `DependencyGraph`.
- **the sequence** (`generate_sequence`). Kahn's topological sort with a proved cycle
  witness, the insertion-order fallback, and one line per node naming the service of its
  first predecessor. Module `Sequencer`.
- **the statistics annotator** (`parse_trace_and_stats`) in its two copies:
  - `trace_evol.py`, which tests the earliest start and latest finish by truthiness;
  - `build_balanced_testset.py`, which first drops blank lines and tests against
    `None`.

  The shared pieces are:
  - the regular expression `starts\s+at\s*(\d+)\s*ms.*?finishes\s+at\s*(\d+)\s*ms`
    under `re.IGNORECASE`, as a leftmost, lazy-gap scanner (module `EdgeScan`);
  - the per-line gate, the `duration=` rewrite and the scan loop (module `Annotator`);
  - count, total, max, floor mean, nearest-rank p95, ratio and bottleneck index
    (module `Aggregates`);
  - `.4f` / `.1f` fixed-point text (module `Decimal`);
  - the header and cooked text (module `TraceStats`).
- **the explanation** (`build_sharegpt` in `trace_evol.py`). The randomly drawn
  question is a parameter. Module `Verdict`.

Modules `Wrappers` (Option) and `Text` (string helpers: `splitlines`, `rstrip`,
`isspace`, ASCII case mapping, integer rendering) support the rest.

The Python loops are `method`s with `while` loops:
- `SpanTree.ExtractSpans`, the loop over a span's children;
- `DependencyGraph.BuildDependencyGraph` with its node loop, and the edge loops
  `DependencyGraph.AddParentEdges` and `DependencyGraph.AddTimeEdges`;
- `Sequencer.TopologicalSort` with `Sequencer.FindSource`, and `Sequencer.RenderLines`;
- `Annotator.ScanLines`, the loop over the lines of a trace text.

Each is proved against a specification function, and the source's promises are lemmas
about that function. `TraceStats.EvolParse` and `TraceStats.BalancedParse` are methods
without loops of their own: they call `ScanLines` and build the record from the scan.
The aggregates (sum, max, mean, p95, bottleneck) are functions, since the source computes
them with built-ins. Python mutates its list and graph in place. Here the accumulator of
`extract_spans` and the graph under construction are values threaded through the method,
because neither outlives the call that builds it.

Two behaviours of the code are worth stating outright:
- **The source named on each line.** Each line names the service of the node's *first*
  predecessor in edge-insertion order, whichever kind that edge is, `parent` or `time`
  (`transform4.py:109-110`). Parent edges are inserted before time edges, so this is the
  causal parent when the span has one in the trace. Otherwise it is the neighbour just
  before the span in start order, if that neighbour started at most 2000 ms earlier.
  Otherwise the line names `Client`. `Sequencer.BuiltEdgeLine` and
  `Sequencer.TraceSequence` state this.
- **The total-latency test in `trace_evol.py`.** It is a truthiness test, so an
  earliest start of exactly 0 falls back to the sum of durations. That is modelled as
  written (`TraceStats.EvolTotal`). `TraceStats.TotalsPartAtZeroStart` shows this is the
  one case where the two builders differ.

## Model

| member | source | states |
|---|---|---|
| SpanTree.ExtractSpans | transform4.py:63-70 | the result is the accumulator followed by the pre-order flattening of the tree (root first, then each child's subtree in stored order), and is longer by the size of the tree |
| SpanTree.FlattenMembers | transform4.py:63-70 | the flattening starts with the root, and a span is in it exactly when it is in the tree |
| SpanTree.FlattenSize | transform4.py:63-70 | the flattening has exactly one entry per span of the tree |
| EdgeFormat.CommunicationType | transform4.py:36-46 | UNKNOWN exactly without a name; otherwise the first of these whose key the name mentions in any ASCII letter case: HTTP for `HTTP`, GRPC for `grpc`, DATABASE for `DB` or `SQL`; RPC exactly when it mentions none of the four |
| Text.UpperContains | transform4.py:40-44 | the upper-cased name holds an upper-case key exactly when the name mentions the key in any letter case |
| Text.LowerContains | transform4.py:42 | the lower-cased name holds a lower-case key exactly when the name mentions the key in any letter case |
| EdgeFormat.CommunicationTypeIgnoresCase | transform4.py:40-45 | the type of a name does not change when the name is upper-cased or lower-cased |
| EdgeFormat.FormatEdgeShape | transform4.py:58-60 | every edge line opens with `[`, ends with `].`, has `starts at` right after its head and holds `finishes at`, so it passes the annotators' gate |
| EdgeFormat.EdgeHeadShape | transform4.py:58-59 | the head of an edge line opens with `[` and ends with the space before `starts at` |
| EdgeFormat.FormatEdge | transform4.py:49-60 | the edge line holds no line break exactly when the span id, the source name and the service name hold none |
| DependencyGraph.SortByStart | transform4.py:87 | the sorted spans are a permutation of the input, ordered by start time |
| DependencyGraph.SortByStartStable | transform4.py:87 | spans with equal start times keep their input order (the sort is stable) |
| DependencyGraph.AddEdge | transform4.py:84-93 | adding an edge keeps the nodes and their spans, and sets the kind of that one edge, leaving every other edge kind as it was |
| DependencyGraph.TimeEdgesAreDue | transform4.py:88-93 | the time edges gathered over the neighbour pairs are exactly the due time links |
| DependencyGraph.TimeLinkForward | transform4.py:91-93 | a `time` edge always goes to a span that starts strictly later |
| DependencyGraph.FirstPredAddEdge | transform4.py:84 | inserting an edge makes its source the first predecessor of its target only if the target had none, and changes no other node's first predecessor |
| DependencyGraph.FirstSourceAppend | transform4.py:109 | appending an edge leaves an existing first predecessor unchanged, and gives the target its source as first predecessor only when it had none |
| DependencyGraph.BuiltEdgesAreDue | transform4.py:82-93 | a graph whose edge set is the parent edges plus the due time edges has `u -> v` exactly for a parent link or a time link, with kind `time` exactly for the time links |
| DependencyGraph.ExpectedSourceComplete | transform4.py:88-93 | the first predecessor gathered over all neighbour pairs is the expected source of the span |
| DependencyGraph.AddParentEdges | transform4.py:82-84 | after the second loop the edges are exactly the `parent` edges, all of kind `parent`, and each span's first predecessor is its parent source |
| DependencyGraph.AddTimeEdges | transform4.py:86-93 | after the third loop the edges are the `parent` edges plus the due `time` edges, exactly the latter of kind `time`, and each span's first predecessor is its expected source |
| DependencyGraph.BuildDependencyGraph | transform4.py:73-95 | the nodes are the span ids in order, each node stores its span, `u -> v` is an edge exactly when it is a `parent` link or a due `time` link, its kind is `time` exactly for time links, and every span's first predecessor is the expected source (causal parent, otherwise the start-order neighbour at most 2000 ms earlier) |
| Sequencer.ClosedSetHasNoOrder | transform4.py:100-104 | a non-empty set of nodes each of which has a predecessor inside it rules out every topological order |
| Sequencer.TopologicalSort | transform4.py:100-102 | a result is a topological order (every node once, every edge pointing forward); no result means that no topological order exists |
| Sequencer.FindSource | transform4.py:100-101 | the search returns the first remaining node without a remaining predecessor, or the end when every remaining node has one |
| Sequencer.ForwardEdgesGiveOrder | transform4.py:100-101 | when every edge goes to a span that starts strictly later, the nodes in stable start order form a topological order |
| Sequencer.NodeOrder | transform4.py:100-104 | the order is topological, or it is the insertion order and no topological order exists; either way it holds every node exactly once |
| Sequencer.RenderLines | transform4.py:106-111 | the loop produces `Lines(g, order)`, one line per node in order |
| Sequencer.LinesAt | transform4.py:107-111 | line `i` is the edge line of the `i`-th node, rendered with the node's span and its first predecessor's span |
| Sequencer.GenerateSequence | transform4.py:98-112 | the node order is as in `NodeOrder`, and the sequence holds one line per node, line `i` being that of the `i`-th node |
| Sequencer.BuiltEdgeLine | transform4.py:108-111 | on a graph built from `spans`, each span's line is `format_edge` of the span and its expected parent span (the parent named by `parent_span_id` when that is a node, otherwise the start-order neighbour at most 2000 ms earlier, otherwise none) |
| Sequencer.TraceSequence | transform4.py:133-139 | for one trace: the spans are the flattened tree, there is one line per span, and for every span the line `format_edge` writes with its expected parent span is among them |
| Sequencer.AcyclicWhenParentsStartFirst | transform4.py:100-101 | when every parent starts strictly before its child, the built graph has a topological order, so the cycle fallback is not taken |
| EdgeScan.SearchFindsLeftmost | trace_evol.py:29-32 | when the pattern matches at an index and at no earlier one, the search returns that match |
| EdgeScan.SearchFailsOnlyWithoutMatch | trace_evol.py:29-32 | the search finds nothing exactly when the pattern matches at no index |
| EdgeScan.SearchIsLeftmostMatch | trace_evol.py:29-32 | a match the search returns is the match at some index where the pattern matches, and at no earlier index does it match |
| EdgeScan.ScanFormattedEdge | trace_evol.py:43-45 | searching a line `format_edge` wrote reads back the span's start and finish times (for non-negative times and a head without the word `starts`) |
| EdgeScan.ScanEdgeText | trace_evol.py:29-32 | a head ending in a space and without the word `starts`, followed by `starts at <s> ms` and `finishes at <f> ms` text, is read as the times `s` and `f` |
| Annotator.AnnotateClosedLine | trace_evol.py:48-49 | a line ending in `].` loses those two characters and gains `, duration=<d> ms].` |
| Annotator.AnnotateBracketLine | trace_evol.py:50-51 | a line ending in `]` loses it and gains `, duration=<d> ms]` |
| Annotator.AnnotateOpenLine | trace_evol.py:52-53 | a line whose right-stripped text ends in neither keeps all its text and gains ` (duration=<d> ms)` |
| Annotator.AnnotateKeepsOneLine | trace_evol.py:48-53 | rewriting a line without breaks gives a non-empty line without breaks |
| Annotator.Annotate | trace_evol.py:48-53 | whichever of the three rewrites applies, the line holds `duration=<d> ms` afterwards |
| Annotator.AnnotateFormattedEdge | trace_evol.py:42-53 | a line `format_edge` wrote passes the gate, is read as its two times, and has its final `].` replaced by `, duration=<finish - start> ms].` |
| Annotator.ScanLines | trace_evol.py:40-56 | the loop's durations, annotated lines, earliest start and latest finish are those of the scan specification `ScanOf` |
| Annotator.ScanLinesPointwise | build_balanced_testset.py:41-57 | output line `j` is input line `j`, annotated exactly when it matched, so there is one output line per input line, in order |
| Annotator.ScanDurations | trace_evol.py:45-47 | the durations are `max(0, f - s)` of the matched lines, in line order |
| Annotator.ScanEarliest | trace_evol.py:54 | the earliest start is unset exactly when no line matched, and otherwise is the least start among the matches and is attained by one |
| Annotator.ScanLatest | trace_evol.py:55 | the latest finish is unset exactly when no line matched, and otherwise is the greatest finish among the matches and is attained by one |
| Annotator.ScanLinesStayLines | trace_evol.py:40-56 | scanning break-free lines gives one line per input line, each without breaks, non-empty lines staying non-empty |
| Aggregates.MaxOf | trace_evol.py:60 | the maximum bounds every duration, is one of them, and is 0 for none |
| Aggregates.MinOf | trace_evol.py:54 | the minimum is at most every duration and is one of them when there are any |
| Aggregates.MaxAtMostSum | trace_evol.py:59-60 | the largest duration is at most the sum of the durations |
| Aggregates.MeanBounds | trace_evol.py:61 | the mean is the floor of sum over count, lies between minimum and maximum, and is 0 for none |
| Aggregates.Mean | trace_evol.py:61 | the mean of no durations is 0, and otherwise is the floor of the sum over the count |
| Aggregates.SortAsc | trace_evol.py:62 | `sorted(durations)` is ascending and a permutation of the durations |
| Aggregates.Insert | trace_evol.py:62 | inserting into an ascending list keeps it ascending and adds exactly the inserted value |
| Aggregates.P95IndexIsNearestRank | trace_evol.py:63 | the p95 index is `ceil(0.95 n) - 1`, the least index whose rank covers 95 percent |
| Aggregates.P95IsNearestRank | trace_evol.py:62-64 | the p95 is one of the durations, at least 95 percent of them are at most it, and fewer than 95 percent are below it |
| Aggregates.P95OfSorted | trace_evol.py:62-64 | on an already ascending list the p95 is the entry at the p95 index |
| Aggregates.P95OfFour | trace_evol.py:62-64 | the p95 of four ascending durations is the largest (`ceil(3.8) - 1 = 3`) |
| Aggregates.P95OfOne | trace_evol.py:62-64 | the p95 of a single duration is that duration |
| Aggregates.P95 | trace_evol.py:62-64 | the p95 of no durations is 0, and otherwise is one of the durations |
| Aggregates.Bottleneck | trace_evol.py:68 | the bottleneck index is -1 exactly for no durations, and otherwise is the first index holding the maximum |
| Aggregates.FirstIndexOf | trace_evol.py:68 | `list.index`: -1 exactly when the value is absent, and otherwise the first index holding it |
| Decimal.RoundHalfEvenNearest | trace_evol.py:77 | the rounded value is within one half of the exact ratio, and an exact tie goes to the even neighbour |
| Decimal.UnitsReadBack | trace_evol.py:77 | the fixed-point text is digits, a point and exactly the requested number of fraction digits, and reads back as the rounded value |
| Decimal.PadDigitsReadsBack | trace_evol.py:77 | a number below `10^k` padded with zeros to `k` digits takes exactly `k` digits and reads back as the number |
| Decimal.FixedTextChars | trace_evol.py:77 | fixed-point text holds only digits and the point, so it never breaks a header line |
| Text.SplitLinesOfJoin | trace_evol.py:80 | `"\n".join` of break-free lines whose last is non-empty is split back into the same lines |
| Text.RStrip | trace_evol.py:48 | `rstrip()` keeps a prefix, drops only whitespace, and leaves no whitespace at the end |
| Text.NoLineBreakConcat | trace_evol.py:80 | two texts joined hold no line break exactly when neither does |
| Text.DecimalValueOfNatToString | trace_evol.py:45 | reading back the decimal text of a number gives the number |
| TraceStats.TotalsAgree | build_balanced_testset.py:60 | the two total-latency rules agree unless the earliest start is exactly 0 |
| TraceStats.EvolTotal | trace_evol.py:59 | the total is the sum of durations or the wall-clock span from earliest start to latest finish, and always the sum when the earliest start is 0 |
| TraceStats.BalancedTotal | build_balanced_testset.py:60 | the total is the wall-clock span whenever both ends are set (and ordered), and otherwise the sum of durations |
| TraceStats.TotalsPartAtZeroStart | trace_evol.py:59 | at an earliest start of 0 the training-set builder takes the sum of durations while the balanced builder keeps the wall-clock span |
| TraceStats.MaxWithinTotal | trace_evol.py:59-60 | under either rule the largest duration is at most the total latency |
| TraceStats.EvolStatsBounds | trace_evol.py:58-68 | the record's durations are those of the matched lines, `num_edges` is their count, the max is at most the total, the ratio is at most 1, and it is `max / total` whenever the total is positive |
| TraceStats.EvolStats | trace_evol.py:36-89 | `num_edges` counts the durations, `max_edge` is their maximum, the bottleneck index is -1 exactly without durations and otherwise holds the maximum, and the ratio has a positive denominator |
| TraceStats.EvolParse | trace_evol.py:36-89 | the method's record is the specification `EvolStats` of the text |
| TraceStats.BalancedParse | build_balanced_testset.py:34-80 | the method's text is the specification `BalancedCooked` of the text |
| TraceStats.BalancedCooked | build_balanced_testset.py:34-80 | the balanced cooked text opens with the statistics heading line `# 统计特征` |
| TraceStats.HeaderOneLine | trace_evol.py:70-79 | the header is eight lines and none holds a line break |
| TraceStats.EvolLayout | trace_evol.py:70-80 | read back with `splitlines`, the cooked text is the header lines, one empty line and one annotated line per input line, for every text whose last line is not empty (the empty text included) |
| TraceStats.CookedIsJoin | trace_evol.py:70-80 | the cooked text is the header lines, one empty line and the annotated lines, joined by newlines |
| TraceStats.CookedLayout | trace_evol.py:70-80 | break-free header and annotated lines, without an empty last annotated line, are recovered exactly by `splitlines` of the cooked text |
| TraceStats.TerminatedLayout | trace_evol.py:80 | break-free lines, each followed by a newline, and one more newline are read back by `splitlines` as those lines and one empty line |
| TraceStats.CookedOpens | trace_evol.py:70-80 | the cooked text opens with the first header line and a newline |
| TraceStats.SummaryOpens | build_balanced_testset.py:69-80 | whatever the scan and the total, the cooked text opens with `# 统计特征` and a newline |
| TraceStats.BalancedLayout | build_balanced_testset.py:69-80 | for every text, read back with `splitlines`, the balanced cooked text is the header lines, one empty line and one annotated line per non-blank input line |
| TraceStats.NonBlankKeeps | build_balanced_testset.py:39 | the filter keeps exactly the lines that are not blank |
| TraceStats.NonBlankConcat | build_balanced_testset.py:39 | filtering blank lines commutes with concatenation |
| TraceStats.NonBlankKeepsAll | build_balanced_testset.py:39 | a text without blank lines passes the filter unchanged |
| TraceStats.VariantsAgree | build_balanced_testset.py:34-80 | for a text without blank lines whose matches all start after 0, the two builders produce the same cooked text |
| TraceStats.NoMatchHeader | trace_evol.py:58-79 | with no matched line, every header value is 0, the ratio is `0.0000` and the bottleneck index is -1 |
| TraceStats.NoMatchTotals | trace_evol.py:58-59 | with no matched line there are no durations and both total-latency rules give 0 |
| TraceStats.ZeroRatioText | trace_evol.py:67-77 | the ratio 0 is written `0.0000` |
| Verdict.ShortChainRemark | trace_evol.py:111-114 | the length remark calls the chain short exactly when it has at most two edges |
| Verdict.RatioRemarkCases | trace_evol.py:117-123 | the bottleneck remark names the bottleneck exactly when ratio > 0.9, names the main node exactly when 0.5 < ratio <= 0.9, and calls the spread even exactly when ratio <= 0.5 |
| Verdict.ConclusionMatchesLabel | trace_evol.py:126-151 | the assistant text ends with the abnormal conclusion exactly when the label is `异常`, and with the normal one otherwise |
| Verdict.UserMessageShape | trace_evol.py:154-160 | there are three messages, the second is the user's, opening with the cooked text and ending with a newline and the question |
| Verdict.BuildSharegpt | trace_evol.py:101-160 | three messages: the system prompt, then a user message, then an assistant message ending with the conclusion for the label |

## Left out

- `main` in each file, file and directory I/O, pickle loading, JSON writing and the random
  sampling of files are not modelled. They are I/O around the core.
- `random.choice(QUESTION_POOL)` in `build_sharegpt` is a parameter `q`, and the question pool is not listed.
- The `print` of the cycle warning in `generate_sequence` is not modelled. The fallback order itself is.
- `networkx.topological_sort` visits nodes in its own order. `Sequencer.TopologicalSort`
  is Kahn's algorithm taking the first remaining node without a remaining predecessor.
  The model promises only what networkx promises: some topological order when one
  exists, and otherwise the exception that selects insertion order.
- Times are whole milliseconds: `startMs` stands for `int(start_time.timestamp() * 1000)`,
  `durationMs` for `int(duration)`. Date-time arithmetic and float durations are not
  modelled. `total_seconds()` compared with 2 becomes a difference in milliseconds
  compared with 2000.
- The `extra` dict of `Span` is not carried. The core never reads it.
- DependencyGraph.BuildDependencyGraph: requires distinct span ids. With a repeated id
  networkx keeps one node and overwrites its span, and that merging is not modelled.
- `max_edge_ratio` is the exact fraction `max / total`, not a binary float.
  `ratio > 0.9` and `ratio > 0.5` are decided exactly on the fraction. `.4f` and `.1f`
  round the exact value half-to-even. Python rounds the nearest double, and `ratio*100`
  rounds twice, so a value within one float ulp of a threshold or of a rounding tie can
  come out differently.
- The mean is `floor(sum / count)` on integers. Python's float division loses precision
  above 2^53.
- `ceil(0.95 * len(vs))` is taken as the exact `ceil(95 n / 100)`. The float product
  agrees with it for every length a trace can have.
- `\d` and `\s` are ASCII digits and Python's whitespace set. The Unicode decimal digits
  `\d` also accepts in a `str` pattern are not modelled.
- `re.IGNORECASE` folds ASCII letters plus long s (U+017F), U+0130 and U+0131 as Python
  does. Other Unicode case folding is not modelled. `upper()` and `lower()` in
  `get_communication_type` are modelled on ASCII letters only.
- EdgeScan.ScanFormattedEdge: requires non-negative start and finish times and a line head
  without the word `starts`. Otherwise the text `format_edge` writes is not read back by
  the pattern (a `-` sign is not `\d`, and an earlier `starts` can be matched first).
- Annotator.AnnotateFormattedEdge: carries the same two requirements as `ScanFormattedEdge`.
- TraceStats.EvolLayout: requires that a non-empty text does not end in an empty line.
  `splitlines` cannot tell a trailing empty line apart from no line, so for such a text
  the read-back would not be exact.
- The `].` / `]` rewrite tests the right-stripped line but cuts characters from the line
  as it is, so a line with trailing whitespace loses its last real characters. This is
  modelled as written (`Annotator.Annotate`).
