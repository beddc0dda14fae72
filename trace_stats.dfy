/** What `parse_trace_and_stats` does after the scan: the total latency (the one rule on
    which the two builders differ), the aggregates, the `max_edge_ratio`, the seven
    `key=value` header lines and the cooked text, header first, then a blank line, then
    the annotated lines. */
module TraceStats {
  import opened Wrappers
  import opened Text
  import opened Aggregates
  import opened Decimal
  import opened EdgeScan
  import opened Annotator

  // ---- the total latency ----

  /** The training-set builder's total: `latest - earliest` when both are truthy (set
      and not 0) and in order, else `sum(durations)`. It is always either the sum or the
      span of an in-order pair, and an earliest start of 0 always gives the sum. */
  function EvolTotal(sc: Scan): (t: nat)
    ensures t == Sum(sc.durations) ||
      (sc.earliest.Some? && sc.latest.Some? && sc.earliest.value <= sc.latest.value &&
       t == sc.latest.value - sc.earliest.value)
    ensures sc.earliest == Some(0) ==> t == Sum(sc.durations)
  {
    match (sc.earliest, sc.latest)
    case (Some(e), Some(l)) => if e != 0 && l != 0 && l >= e then l - e else Sum(sc.durations)
    case _ => Sum(sc.durations)
  }

  /** The balanced builder's total: `latest - earliest` when both are set (`is not None`)
      and in order, else `sum(durations)`. It is always either the sum or the span of an
      in-order pair, and the span whenever there is one. */
  function BalancedTotal(sc: Scan): (t: nat)
    ensures t == Sum(sc.durations) ||
      (sc.earliest.Some? && sc.latest.Some? && sc.earliest.value <= sc.latest.value &&
       t == sc.latest.value - sc.earliest.value)
    ensures sc.earliest.Some? && sc.latest.Some? && sc.earliest.value <= sc.latest.value ==>
      t == sc.latest.value - sc.earliest.value
  {
    match (sc.earliest, sc.latest)
    case (Some(e), Some(l)) => if l >= e then l - e else Sum(sc.durations)
    case _ => Sum(sc.durations)
  }

  /** An earliest start of 0 is the one case where the two totals part: the training-set
      builder falls back to the sum while the balanced one keeps the wall-clock span. */
  lemma TotalsPartAtZeroStart(sc: Scan)
    requires sc.earliest == Some(0) && sc.latest.Some?
    ensures EvolTotal(sc) == Sum(sc.durations)
    ensures BalancedTotal(sc) == sc.latest.value
  {
  }

  /** Otherwise they agree. */
  lemma TotalsAgree(sc: Scan)
    requires sc.earliest != Some(0)
    ensures EvolTotal(sc) == BalancedTotal(sc)
  {
  }

  /** The largest duration never exceeds either total: a wall-clock total spans every
      matched line, and the sum holds every duration. */
  lemma MaxWithinTotal(ls: seq<string>, read: string -> Option<Times>)
    ensures MaxOf(ScanOf(ls, read).durations) <= EvolTotal(ScanOf(ls, read))
    ensures MaxOf(ScanOf(ls, read).durations) <= BalancedTotal(ScanOf(ls, read))
  {
    var sc := ScanOf(ls, read);
    var ms := Matched(ls, read);
    MaxAtMostSum(sc.durations);
    if sc.earliest.Some? && sc.latest.Some? && sc.latest.value >= sc.earliest.value {
      ScanDurations(ls, read);
      ScanEarliest(ls, read);
      ScanLatest(ls, read);
      MaxWithinSpan(ms, sc.earliest.value, sc.latest.value);
    }
  }

  /** Durations of times that all start at or after `e` and finish by `l` are at most
      `l - e`. */
  lemma MaxWithinSpan(ts: seq<Times>, e: nat, l: nat)
    requires e <= l
    requires forall t :: t in ts ==> e <= t.start && t.finish <= l
    ensures MaxOf(DurationsOf(ts)) <= l - e
  {
    var ds := DurationsOf(ts);
    if ds != [] {
      var i :| 0 <= i < |ds| && ds[i] == MaxOf(ds);
      assert ts[i] in ts;
    }
  }

  // ---- the ratio ----

  /** `mx / total if total > 0 else 0.0`, kept as a fraction with a positive denominator. */
  datatype Ratio = Ratio(num: nat, den: nat)

  function RatioOf(mx: nat, total: nat): (r: Ratio)
    ensures r.den > 0
  {
    if total > 0 then Ratio(mx, total) else Ratio(0, 1)
  }

  // ---- the header and the cooked text ----

  /** The header lines in their fixed order. */
  function HeaderLines(numEdges: nat, total: nat, mx: nat, avg: nat, p95: nat, ratio: Ratio, bIdx: int): seq<string>
    requires ratio.den > 0
  {
    ["# 统计特征",
     "num_edges=" + NatToString(numEdges),
     "total_latency_ms=" + NatToString(total),
     "max_edge_latency_ms=" + NatToString(mx),
     "mean_edge_latency_ms=" + NatToString(avg),
     "p95_edge_latency_ms=" + NatToString(p95),
     "max_edge_ratio=" + FixedText(ratio.num, ratio.den, 4),
     "bottleneck_index=" + IntToString(bIdx)]
  }

  /** Every line followed by its `"\n"`. */
  function Terminated(ls: seq<string>): string {
    if ls == [] then "" else ls[0] + "\n" + Terminated(ls[1..])
  }

  /** `header + "\n".join(ann_lines)`, the header ending in one extra `"\n"` (the
      training-set builder writes `\n\n` after the last header line, the balanced one
      `\n` and then `"\n" + ...`: the same characters). */
  function Cooked(header: seq<string>, ann: seq<string>): string {
    Terminated(header) + "\n" + Join(ann, "\n")
  }

  /** The cooked text is the header lines, an empty line and the annotated lines, joined
      by `"\n"`. */
  lemma {:induction false} CookedIsJoin(header: seq<string>, ann: seq<string>)
    requires ann != []
    ensures Cooked(header, ann) == Join(header + [""] + ann, "\n")
    decreases |header|
  {
    if header == [] {
      assert [] + [""] + ann == [""] + ann;
      assert ([""] + ann)[1..] == ann;
    } else {
      CookedIsJoin(header[1..], ann);
      assert (header + [""] + ann)[1..] == header[1..] + [""] + ann;
      assert (header + [""] + ann)[0] == header[0];
    }
  }

  /** Read back with `splitlines()`, the cooked text gives the header lines, one blank
      line and the annotated lines, provided no line holds a break and the last annotated
      line, if there is one, is not empty. */
  lemma CookedLayout(header: seq<string>, ann: seq<string>)
    requires forall j :: 0 <= j < |header| ==> NoLineBreak(header[j])
    requires forall j :: 0 <= j < |ann| ==> NoLineBreak(ann[j])
    requires ann != [] ==> ann[|ann| - 1] != ""
    ensures SplitLines(Cooked(header, ann)) == header + [""] + ann
  {
    if ann == [] {
      assert Cooked(header, ann) == Terminated(header) + "\n";
      TerminatedLayout(header);
      assert header + [""] + ann == header + [""];
    } else {
      CookedIsJoin(header, ann);
      var all := header + [""] + ann;
      forall j | 0 <= j < |all| ensures NoLineBreak(all[j]) {
        if j > |header| {
          assert all[j] == ann[j - |header| - 1];
        }
      }
      SplitLinesOfJoin(all);
    }
  }

  /** With no annotated line the cooked text is the terminated header and one more
      `"\n"`, which reads back as the header lines and one empty line. */
  lemma {:induction false} TerminatedLayout(header: seq<string>)
    requires forall j :: 0 <= j < |header| ==> NoLineBreak(header[j])
    ensures SplitLines(Terminated(header) + "\n") == header + [""]
    decreases |header|
  {
    if header == [] {
      assert Terminated(header) + "\n" == "" + "\n" + "";
      SplitLinesCons("", "");
    } else {
      var h, tl := header[0], header[1..];
      TerminatedCons(header);
      assert NoLineBreak(h);
      SplitLinesCons(h, Terminated(tl) + "\n");
      assert forall j :: 0 <= j < |tl| ==> tl[j] == header[j + 1];
      TerminatedLayout(tl);
      assert [h] + (tl + [""]) == header + [""];
    }
  }

  /** The terminated header is its first line, `"\n"`, and the terminated rest. */
  lemma TerminatedCons(header: seq<string>)
    requires header != []
    ensures Terminated(header) + "\n" == header[0] + "\n" + (Terminated(header[1..]) + "\n")
  {
    var a, t := header[0] + "\n", Terminated(header[1..]);
    assert Terminated(header) == a + t;
    AppendAssoc(a, t, "\n");
  }

  /** Appending strings is associative. */
  lemma AppendAssoc(a: string, b: string, c: string)
    ensures (a + b) + c == a + (b + c)
  {
  }

  /** The cooked text opens with the first header line and its `"\n"`. */
  lemma CookedOpens(header: seq<string>, ann: seq<string>)
    requires header != []
    ensures StartsWith(Cooked(header, ann), header[0] + "\n")
  {
    var rest := Terminated(header[1..]) + "\n" + Join(ann, "\n");
    assert Cooked(header, ann) == header[0] + "\n" + rest;
    JoinEnds(header[0] + "\n", rest);
  }

  // ---- the result ----

  /** The record `parse_trace_and_stats` returns. */
  datatype Stats = Stats(durations: seq<nat>, maxEdge: nat, bottleneckIndex: int, maxEdgeRatio: Ratio,
                         cookedUser: string, numEdges: nat, totalLatency: nat)

  /** The header for a scan and the total its builder chose. */
  function HeaderOf(sc: Scan, total: nat): seq<string> {
    var ds := sc.durations;
    HeaderLines(|ds|, total, MaxOf(ds), Mean(ds), P95(ds), RatioOf(MaxOf(ds), total), Bottleneck(ds))
  }

  /** The aggregates and the cooked text for a scan and the total its builder chose. */
  function Summary(sc: Scan, total: nat): Stats {
    var ds := sc.durations;
    Stats(ds, MaxOf(ds), Bottleneck(ds), RatioOf(MaxOf(ds), total), Cooked(HeaderOf(sc, total), sc.lines), |ds|, total)
  }

  /** Whatever the scan, the cooked text opens with the statistics heading line. */
  lemma SummaryOpens(sc: Scan, total: nat)
    ensures StartsWith(Summary(sc, total).cookedUser, "# 统计特征\n")
  {
    var header := HeaderOf(sc, total);
    assert header[0] == "# 统计特征";
    CookedOpens(header, sc.lines);
  }

  /** The training-set builder's result for `txt`. */
  function EvolStats(txt: string): (st: Stats)
    ensures st.numEdges == |st.durations| && st.maxEdge == MaxOf(st.durations)
    ensures st.bottleneckIndex == -1 <==> st.durations == []
    ensures st.durations != [] ==> 0 <= st.bottleneckIndex < st.numEdges && st.durations[st.bottleneckIndex] == st.maxEdge
    ensures st.maxEdgeRatio.den > 0
  {
    var sc := ScanOf(SplitLines(txt), LineMatch);
    Summary(sc, EvolTotal(sc))
  }

  /** `[l for l in lines if l.strip()]`. */
  function NonBlank(ls: seq<string>): seq<string> {
    if ls == [] then [] else (if IsBlank(ls[0]) then [] else [ls[0]]) + NonBlank(ls[1..])
  }

  /** The filter keeps exactly the lines that are not blank. */
  lemma {:induction false} NonBlankKeeps(ls: seq<string>)
    ensures forall j :: 0 <= j < |NonBlank(ls)| ==> !IsBlank(NonBlank(ls)[j])
    ensures forall x :: x in NonBlank(ls) <==> x in ls && !IsBlank(x)
    decreases |ls|
  {
    if ls != [] {
      NonBlankKeeps(ls[1..]);
      assert ls == [ls[0]] + ls[1..];
    }
  }

  /** Filtering keeps the order: the lines kept from two pieces are those kept from the
      first, then those kept from the second. */
  lemma {:induction false} NonBlankConcat(a: seq<string>, b: seq<string>)
    ensures NonBlank(a + b) == NonBlank(a) + NonBlank(b)
    decreases |a|
  {
    if a != [] {
      NonBlankConcat(a[1..], b);
      assert (a + b)[1..] == a[1..] + b;
      assert (a + b)[0] == a[0];
    } else {
      assert a + b == b;
    }
  }

  /** Without blank lines there is nothing to drop. */
  lemma {:induction false} NonBlankKeepsAll(ls: seq<string>)
    requires forall j :: 0 <= j < |ls| ==> !IsBlank(ls[j])
    ensures NonBlank(ls) == ls
    decreases |ls|
  {
    if ls != [] {
      NonBlankKeepsAll(ls[1..]);
      assert ls == [ls[0]] + ls[1..];
    }
  }

  /** The balanced builder's cooked text for `txt`. */
  function BalancedCooked(txt: string): (c: string)
    ensures StartsWith(c, "# 统计特征\n")
  {
    var sc := ScanOf(NonBlank(SplitLines(txt)), LineMatch);
    SummaryOpens(sc, BalancedTotal(sc));
    Summary(sc, BalancedTotal(sc)).cookedUser
  }

  /** `parse_trace_and_stats` of the training-set builder. */
  method EvolParse(txt: string) returns (st: Stats)
    ensures st == EvolStats(txt)
  {
    var durations, annLines, earliest, latest := ScanLines(SplitLines(txt));
    var numEdges := |durations|;
    var total := if earliest.Some? && latest.Some? && earliest.value != 0 && latest.value != 0 && latest.value >= earliest.value
      then latest.value - earliest.value else Sum(durations);
    var mx := MaxOf(durations);
    var avg := Mean(durations);
    var p95 := P95(durations);
    var ratio := RatioOf(mx, total);
    var bIdx := Bottleneck(durations);
    var header := HeaderLines(numEdges, total, mx, avg, p95, ratio, bIdx);
    st := Stats(durations, mx, bIdx, ratio, Cooked(header, annLines), numEdges, total);
  }

  /** `parse_trace_and_stats` of the balanced test-set builder, which returns only the
      cooked text. */
  method BalancedParse(txt: string) returns (cooked: string)
    ensures cooked == BalancedCooked(txt)
  {
    var lines := NonBlank(SplitLines(txt));
    var durations, annLines, earliest, latest := ScanLines(lines);
    var numEdges := |durations|;
    var total := if earliest.Some? && latest.Some? && latest.value >= earliest.value
      then latest.value - earliest.value else Sum(durations);
    ghost var sc := Scan(durations, annLines, earliest, latest);
    assert total == BalancedTotal(sc);
    var mx := MaxOf(durations);
    var avg := Mean(durations);
    var p95 := P95(durations);
    var ratio := RatioOf(mx, total);
    var bIdx := Bottleneck(durations);
    var header := HeaderLines(numEdges, total, mx, avg, p95, ratio, bIdx);
    assert header == HeaderOf(sc, total);
    cooked := Cooked(header, annLines);
  }

  // ---- what the result says ----

  /** A `key=value` line with a lower-case key and a numeric value is one line. */
  lemma KeyValueOneLine(key: string, value: string)
    requires forall i :: 0 <= i < |key| ==> 'a' <= key[i] <= 'z' || IsDigit(key[i]) || key[i] == '_' || key[i] == '='
    requires forall i :: 0 <= i < |value| ==> IsDigit(value[i]) || value[i] == '.' || value[i] == '-'
    ensures NoLineBreak(key + value)
  {
    NoLineBreakConcat(key, value);
  }

  /** No header line holds a break. */
  lemma HeaderOneLine(numEdges: nat, total: nat, mx: nat, avg: nat, p95: nat, ratio: Ratio, bIdx: int)
    requires ratio.den > 0
    ensures |HeaderLines(numEdges, total, mx, avg, p95, ratio, bIdx)| == 8
    ensures forall j :: 0 <= j < 8 ==> NoLineBreak(HeaderLines(numEdges, total, mx, avg, p95, ratio, bIdx)[j])
  {
    TitleOneLine();
    CountLinesOneLine(numEdges, total, mx);
    MeanAndP95OneLine(avg, p95);
    RatioAndIndexOneLine(ratio, bIdx);
  }

  lemma TitleOneLine()
    ensures NoLineBreak("# 统计特征")
  {
  }

  lemma CountLinesOneLine(numEdges: nat, total: nat, mx: nat)
    ensures NoLineBreak("num_edges=" + NatToString(numEdges))
    ensures NoLineBreak("total_latency_ms=" + NatToString(total))
    ensures NoLineBreak("max_edge_latency_ms=" + NatToString(mx))
  {
    KeyValueOneLine("num_edges=", NatToString(numEdges));
    KeyValueOneLine("total_latency_ms=", NatToString(total));
    KeyValueOneLine("max_edge_latency_ms=", NatToString(mx));
  }

  lemma MeanAndP95OneLine(avg: nat, p95: nat)
    ensures NoLineBreak("mean_edge_latency_ms=" + NatToString(avg))
    ensures NoLineBreak("p95_edge_latency_ms=" + NatToString(p95))
  {
    KeyValueOneLine("mean_edge_latency_ms=", NatToString(avg));
    KeyValueOneLine("p95_edge_latency_ms=", NatToString(p95));
  }

  lemma RatioAndIndexOneLine(ratio: Ratio, bIdx: int)
    requires ratio.den > 0
    ensures NoLineBreak("max_edge_ratio=" + FixedText(ratio.num, ratio.den, 4))
    ensures NoLineBreak("bottleneck_index=" + IntToString(bIdx))
  {
    RatioOneLine(ratio.num, ratio.den);
    IndexOneLine(bIdx);
  }

  lemma RatioOneLine(num: nat, den: nat)
    requires den > 0
    ensures NoLineBreak("max_edge_ratio=" + FixedText(num, den, 4))
  {
    FixedTextChars(num, den, 4);
    KeyValueOneLine("max_edge_ratio=", FixedText(num, den, 4));
  }

  lemma IndexOneLine(bIdx: int)
    ensures NoLineBreak("bottleneck_index=" + IntToString(bIdx))
  {
    IntToStringChars(bIdx);
    KeyValueOneLine("bottleneck_index=", IntToString(bIdx));
  }

  /** The training-set builder's cooked text, read back with `splitlines()`, is the
      header lines in order, one blank line and one annotated line per input line. */
  lemma EvolLayout(txt: string)
    requires SplitLines(txt) != [] ==> SplitLines(txt)[|SplitLines(txt)| - 1] != ""
    ensures var sc := ScanOf(SplitLines(txt), LineMatch);
      |sc.lines| == |SplitLines(txt)| &&
      SplitLines(EvolStats(txt).cookedUser) == HeaderOf(sc, EvolTotal(sc)) + [""] + sc.lines
  {
    var ls := SplitLines(txt);
    var sc := ScanOf(ls, LineMatch);
    ScanLinesStayLines(ls, LineMatch);
    var ds := sc.durations;
    var total := EvolTotal(sc);
    HeaderOneLine(|ds|, total, MaxOf(ds), Mean(ds), P95(ds), RatioOf(MaxOf(ds), total), Bottleneck(ds));
    CookedLayout(HeaderOf(sc, total), sc.lines);
  }

  /** The balanced builder's cooked text, read back, is the header lines, one blank line
      and one annotated line per non-blank input line. */
  lemma BalancedLayout(txt: string)
    ensures var sc := ScanOf(NonBlank(SplitLines(txt)), LineMatch);
      |sc.lines| == |NonBlank(SplitLines(txt))| &&
      SplitLines(BalancedCooked(txt)) == HeaderOf(sc, BalancedTotal(sc)) + [""] + sc.lines
  {
    var ls := NonBlank(SplitLines(txt));
    NonBlankKeeps(SplitLines(txt));
    if ls != [] {
      assert !IsBlank(ls[|ls| - 1]);
    }
    forall j | 0 <= j < |ls| ensures NoLineBreak(ls[j]) {
      assert ls[j] in SplitLines(txt);
    }
    var sc := ScanOf(ls, LineMatch);
    ScanLinesStayLines(ls, LineMatch);
    var ds := sc.durations;
    var total := BalancedTotal(sc);
    HeaderOneLine(|ds|, total, MaxOf(ds), Mean(ds), P95(ds), RatioOf(MaxOf(ds), total), Bottleneck(ds));
    CookedLayout(HeaderOf(sc, total), sc.lines);
  }

  /** The training-set builder's numbers: one duration per matching line, the largest at
      most the total, so the ratio is at most one. */
  lemma EvolStatsBounds(txt: string)
    ensures var ms := Matched(SplitLines(txt), LineMatch);
      var st := EvolStats(txt);
      st.durations == DurationsOf(ms) && st.numEdges == |ms| &&
      st.maxEdge <= st.totalLatency &&
      st.maxEdgeRatio.num <= st.maxEdgeRatio.den &&
      (st.totalLatency > 0 ==> st.maxEdgeRatio == Ratio(st.maxEdge, st.totalLatency))
  {
    ScanDurations(SplitLines(txt), LineMatch);
    MaxWithinTotal(SplitLines(txt), LineMatch);
  }

  /** With no blank line and no matching line starting at 0, the two builders write the
      same cooked text. */
  lemma VariantsAgree(txt: string)
    requires forall j :: 0 <= j < |SplitLines(txt)| ==> !IsBlank(SplitLines(txt)[j])
    requires forall t :: t in Matched(SplitLines(txt), LineMatch) ==> t.start != 0
    ensures EvolStats(txt).cookedUser == BalancedCooked(txt)
  {
    var ls := SplitLines(txt);
    NonBlankKeepsAll(ls);
    ScanEarliest(ls, LineMatch);
    TotalsAgree(ScanOf(ls, LineMatch));
  }

  /** With no matching line the header reads zero for every count, `0.0000` for the
      ratio and -1 for the bottleneck. */
  lemma NoMatchHeader(sc: Scan)
    requires sc.durations == []
    ensures HeaderOf(sc, 0) == ["# 统计特征", "num_edges=0", "total_latency_ms=0", "max_edge_latency_ms=0",
                                "mean_edge_latency_ms=0", "p95_edge_latency_ms=0", "max_edge_ratio=0.0000",
                                "bottleneck_index=-1"]
  {
    var ds := sc.durations;
    assert MaxOf(ds) == 0 && Mean(ds) == 0 && P95(ds) == 0 && Bottleneck(ds) == -1;
    assert RatioOf(0, 0) == Ratio(0, 1);
    ZeroRatioText();
    assert HeaderOf(sc, 0) == HeaderLines(0, 0, 0, 0, 0, Ratio(0, 1), -1);
    assert NatToString(0) == "0";
    assert IntToString(-1) == "-1";
    assert "num_edges=" + "0" == "num_edges=0";
    assert "total_latency_ms=" + "0" == "total_latency_ms=0";
    assert "max_edge_latency_ms=" + "0" == "max_edge_latency_ms=0";
    assert "mean_edge_latency_ms=" + "0" == "mean_edge_latency_ms=0";
    assert "p95_edge_latency_ms=" + "0" == "p95_edge_latency_ms=0";
    assert "max_edge_ratio=" + "0.0000" == "max_edge_ratio=0.0000";
    assert "bottleneck_index=" + "-1" == "bottleneck_index=-1";
  }

  /** A zero ratio is written `0.0000`. */
  lemma ZeroRatioText()
    ensures FixedText(0, 1, 4) == "0.0000"
  {
    assert RoundHalfEven(0, 1) == 0;
    assert DivMod(0, Pow10(4)) == (0, 0);
    assert Zeros(3) == "000";
    assert PadDigits(0, 4) == "0000";
  }

  /** A text without a matching line has no edges and a zero total in both builders. */
  lemma NoMatchTotals(ls: seq<string>)
    requires Matched(ls, LineMatch) == []
    ensures ScanOf(ls, LineMatch).durations == []
    ensures EvolTotal(ScanOf(ls, LineMatch)) == 0 && BalancedTotal(ScanOf(ls, LineMatch)) == 0
  {
    ScanDurations(ls, LineMatch);
    ScanEarliest(ls, LineMatch);
  }
}
