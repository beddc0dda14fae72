/** The edge-text statistical annotator, `parse_trace_and_stats`, in its two near-copies:
    the training-set builder (`trace_evol.py`, which tests the earliest start and latest
    finish for truthiness) and the balanced test-set builder (`build_balanced_testset.py`,
    which drops blank lines first and tests them against `None`). Both share one scan:
    every line that passes the gate and matches the pattern has its two times read,
    its duration recorded and a `duration=` suffix written into it. */
module Annotator {
  import opened Wrappers
  import opened Text
  import opened SpanTree
  import opened EdgeFormat
  import opened EdgeScan

  // ---- one line ----

  /** `line.startswith('[') and 'starts at' in line and 'finishes at' in line`. */
  predicate Gated(line: string) {
    StartsWith(line, "[") && Contains(line, "starts at") && Contains(line, "finishes at")
  }

  /** The start and finish a line contributes: only a line that passes the gate is
      searched, and only a match counts. */
  function LineMatch(line: string): Option<Times> {
    if Gated(line) then Search(line) else None
  }

  /** `max(0, f - s)`. */
  function Duration(t: Times): nat {
    if t.finish >= t.start then t.finish - t.start else 0
  }

  /** The suffix rewrite. The ending is checked on the right-stripped line, but the
      characters dropped are the last ones of the line as it is. Whatever the ending,
      the rewritten line carries the duration. */
  function Annotate(line: string, d: nat): (r: string)
    ensures Contains(r, "duration=" + NatToString(d) + " ms")
  {
    RewriteCarriesDuration(line, RStrip(line), NatToString(d));
    Rewrite(line, RStrip(line), NatToString(d))
  }

  /** The rewrite of `line` whose right-stripped text is `t`, with the duration written
      as the digits `n`. */
  function Rewrite(line: string, t: string, n: string): string
    requires |t| <= |line|
  {
    if EndsWith(t, "].") then line[..|line| - 2] + ", duration=" + n + " ms]."
    else if EndsWith(t, "]") then line[..|line| - 1] + ", duration=" + n + " ms]"
    else line + " (duration=" + n + " ms)"
  }

  /** Each of the three rewrites writes `duration=<n> ms` into the line. */
  lemma RewriteCarriesDuration(line: string, t: string, n: string)
    requires |t| <= |line|
    ensures Contains(Rewrite(line, t, n), "duration=" + n + " ms")
  {
    if EndsWith(t, "].") {
      var x := line[..|line| - 2];
      assert ", duration=" == ", " + "duration=" && " ms]." == " ms" + "].";
      assert x + ", duration=" + n + " ms]." == x + ", " + "duration=" + n + " ms" + "].";
      Carries(x, ", ", n, "].");
    } else if EndsWith(t, "]") {
      var x := line[..|line| - 1];
      assert ", duration=" == ", " + "duration=" && " ms]" == " ms" + "]";
      assert x + ", duration=" + n + " ms]" == x + ", " + "duration=" + n + " ms" + "]";
      Carries(x, ", ", n, "]");
    } else {
      assert " (duration=" == " (" + "duration=" && " ms)" == " ms" + ")";
      assert line + " (duration=" + n + " ms)" == line + " (" + "duration=" + n + " ms" + ")";
      Carries(line, " (", n, ")");
    }
  }

  /** `x`, an opening, `duration=<n> ms` and a closing contain `duration=<n> ms`. */
  lemma Carries(x: string, open: string, n: string, closing: string)
    ensures Contains(x + open + "duration=" + n + " ms" + closing, "duration=" + n + " ms")
  {
    var p := "duration=" + n + " ms";
    assert x + open + "duration=" + n + " ms" + closing == (x + open) + p + closing;
    OccursAtJoin(x + open, p, closing);
  }

  /** The line the scan emits for `line`, given what was read from it: annotated when it
      matched, unchanged otherwise. */
  function Emitted(line: string, m: Option<Times>): string {
    match m
    case None => line
    case Some(t) => Annotate(line, Duration(t))
  }

  /** A text ends with whatever the text appended to it ends with. */
  lemma EndsAfter(x: string, y: string, p: string)
    requires EndsWith(y, p)
    ensures EndsWith(x + y, p)
  {
    assert (x + y)[|x + y| - |p|..] == y[|y| - |p|..];
  }

  /** A line that ends in `].` keeps everything before the closing `].`, then gets the
      duration and the same closing. */
  lemma AnnotateClosedLine(line: string, d: nat)
    requires |line| >= 2 && line[|line| - 2..] == "]."
    ensures Annotate(line, d) == line[..|line| - 2] + ", duration=" + NatToString(d) + " ms]."
    ensures EndsWith(Annotate(line, d), "].")
  {
    assert line[|line| - 1] == line[|line| - 2..][1];
    RStripKeeps(line);
    assert EndsWith(" ms].", "].");
    EndsAfter(line[..|line| - 2] + ", duration=" + NatToString(d), " ms].", "].");
  }

  /** A line whose last character is `]` ends in `]` and not in `].`. */
  lemma BracketEnd(s: string)
    requires |s| >= 1 && s[|s| - 1] == ']'
    ensures EndsWith(s, "]") && !EndsWith(s, "].")
  {
    assert s[|s| - 1..] == [s[|s| - 1]];
    if |s| >= 2 {
      assert s[|s| - 2..][1] == ']';
    }
  }

  /** A line that ends in `]` keeps everything before the `]`, then gets the duration
      and the `]` back. */
  lemma AnnotateBracketLine(line: string, d: nat)
    requires |line| >= 1 && line[|line| - 1] == ']'
    ensures Annotate(line, d) == line[..|line| - 1] + ", duration=" + NatToString(d) + " ms]"
    ensures EndsWith(Annotate(line, d), "]")
  {
    RStripKeeps(line);
    BracketEnd(line);
    assert EndsWith(" ms]", "]");
    EndsAfter(line[..|line| - 1] + ", duration=" + NatToString(d), " ms]", "]");
  }

  /** A text starts with what was written first. */
  lemma StartsBefore(x: string, y: string)
    ensures StartsWith(x + y, x)
  {
    assert (x + y)[..|x|] == x;
  }

  /** Any other line keeps all of itself and gets ` (duration=d ms)` appended. */
  lemma AnnotateOpenLine(line: string, d: nat)
    requires !EndsWith(RStrip(line), "].") && !EndsWith(RStrip(line), "]")
    ensures Annotate(line, d) == line + " (duration=" + NatToString(d) + " ms)"
    ensures StartsWith(Annotate(line, d), line)
  {
    var n := NatToString(d);
    assert line + " (duration=" + n + " ms)" == line + (" (duration=" + n + " ms)");
    StartsBefore(line, " (duration=" + n + " ms)");
  }

  /** The rewrite never puts a line break into a line and never empties it. */
  lemma AnnotateKeepsOneLine(line: string, d: nat)
    requires NoLineBreak(line)
    ensures NoLineBreak(Annotate(line, d)) && Annotate(line, d) != ""
  {
    RewriteKeepsOneLine(line, RStrip(line), NatToString(d));
  }

  /** The rewrite with any digits keeps one non-empty line. */
  lemma RewriteKeepsOneLine(line: string, t: string, n: string)
    requires NoLineBreak(line) && |t| <= |line| && AllDigits(n) && |n| > 0
    ensures NoLineBreak(Rewrite(line, t, n)) && Rewrite(line, t, n) != ""
  {
    if EndsWith(t, "].") {
      CutKeepsOneLine(line, 2, n, " ms].");
    } else if EndsWith(t, "]") {
      CutKeepsOneLine(line, 1, n, " ms]");
    } else {
      SuffixKeepsOneLine(line, " (duration=", n, " ms)");
    }
  }

  /** The two closing forms: the last `cut` characters replaced by the duration. */
  lemma CutKeepsOneLine(line: string, cut: nat, n: string, closing: string)
    requires NoLineBreak(line) && cut <= |line| && AllDigits(n) && |n| > 0
    requires forall i :: 0 <= i < |closing| ==> closing[i] in " ms].)"
    ensures NoLineBreak(line[..|line| - cut] + ", duration=" + n + closing)
    ensures line[..|line| - cut] + ", duration=" + n + closing != ""
  {
    SuffixKeepsOneLine(line[..|line| - cut], ", duration=", n, closing);
  }

  /** A line, a tag, a number and a closing, none holding a break, make one line. */
  lemma SuffixKeepsOneLine(x: string, tag: string, n: string, closing: string)
    requires NoLineBreak(x) && AllDigits(n) && |n| > 0
    requires forall i :: 0 <= i < |tag| ==> tag[i] in " (,=adinortu"
    requires forall i :: 0 <= i < |closing| ==> closing[i] in " ms].)"
    ensures NoLineBreak(x + tag + n + closing) && x + tag + n + closing != ""
  {
    DigitsNoLineBreak(n);
    NoLineBreakConcat(x, tag);
    NoLineBreakConcat(x + tag, n);
    NoLineBreakConcat(x + tag + n, closing);
  }

  // ---- the scan loop ----

  /** The values the loop carries: the durations, the annotated lines, the earliest start
      and the latest finish (`None` until a line matches). */
  datatype Scan = Scan(durations: seq<nat>, lines: seq<string>, earliest: Option<nat>, latest: Option<nat>)

  function Min(a: nat, b: nat): nat {
    if a <= b then a else b
  }

  function Max(a: nat, b: nat): nat {
    if a >= b then a else b
  }

  /** One turn of the loop, given what was read from the line. */
  function Step(sc: Scan, line: string, m: Option<Times>): Scan {
    match m
    case None => sc.(lines := sc.lines + [line])
    case Some(t) =>
      var d := Duration(t);
      Scan(sc.durations + [d], sc.lines + [Annotate(line, d)],
           Some(if sc.earliest.None? then t.start else Min(sc.earliest.value, t.start)),
           Some(if sc.latest.None? then t.finish else Max(sc.latest.value, t.finish)))
  }

  /** The loop run over `ls`, each line read by `read` (the annotators read with
      `LineMatch`). */
  function ScanOf(ls: seq<string>, read: string -> Option<Times>): Scan
    decreases |ls|
  {
    if ls == [] then Scan([], [], None, None)
    else Step(ScanOf(ls[..|ls| - 1], read), ls[|ls| - 1], read(ls[|ls| - 1]))
  }

  /** The `for raw in lines` loop of both annotators. */
  method ScanLines(ls: seq<string>) returns (durations: seq<nat>, annotated: seq<string>, earliest: Option<nat>, latest: Option<nat>)
    ensures Scan(durations, annotated, earliest, latest) == ScanOf(ls, LineMatch)
  {
    durations, annotated, earliest, latest := [], [], None, None;
    var i := 0;
    while i < |ls|
      invariant 0 <= i <= |ls|
      invariant Scan(durations, annotated, earliest, latest) == ScanOf(ls[..i], LineMatch)
    {
      var line := ls[i];
      var m := LineMatch(line);
      ScanOfNext(ls, i, LineMatch);
      ghost var next := Step(Scan(durations, annotated, earliest, latest), line, m);
      if m.Some? {
        var s := m.value.start;
        var f := m.value.finish;
        var dur := if f >= s then f - s else 0;
        durations := durations + [dur];
        line := Annotate(line, dur);
        earliest := if earliest.None? then Some(s) else Some(Min(earliest.value, s));
        latest := if latest.None? then Some(f) else Some(Max(latest.value, f));
      }
      annotated := annotated + [line];
      assert Scan(durations, annotated, earliest, latest) == next;
      i := i + 1;
    }
    assert ls[..|ls|] == ls;
  }

  /** The loop over one more line is one more turn. */
  lemma ScanOfNext(ls: seq<string>, i: nat, read: string -> Option<Times>)
    requires i < |ls|
    ensures ScanOf(ls[..i + 1], read) == Step(ScanOf(ls[..i], read), ls[i], read(ls[i]))
  {
    assert ls[..i + 1][..i] == ls[..i];
  }

  /** The times of the lines that match, in order. */
  function Matched(ls: seq<string>, read: string -> Option<Times>): seq<Times>
    decreases |ls|
  {
    if ls == [] then []
    else
      match read(ls[|ls| - 1])
      case None => Matched(ls[..|ls| - 1], read)
      case Some(t) => Matched(ls[..|ls| - 1], read) + [t]
  }

  function DurationsOf(ts: seq<Times>): (r: seq<nat>)
    ensures |r| == |ts| && forall i :: 0 <= i < |ts| ==> r[i] == Duration(ts[i])
  {
    seq(|ts|, i requires 0 <= i < |ts| => Duration(ts[i]))
  }

  /** One output line per input line, in order: the annotated line where the line
      matched, the line itself where it did not. */
  lemma {:induction false} ScanLinesPointwise(ls: seq<string>, read: string -> Option<Times>)
    ensures |ScanOf(ls, read).lines| == |ls|
    ensures forall j :: 0 <= j < |ls| ==> ScanOf(ls, read).lines[j] == Emitted(ls[j], read(ls[j]))
    decreases |ls|
  {
    if ls != [] {
      var init := ls[..|ls| - 1];
      var last := ls[|ls| - 1];
      ScanLinesPointwise(init, read);
      var before := ScanOf(init, read).lines;
      var after := ScanOf(ls, read).lines;
      StepLines(ScanOf(init, read), last, read(last));
      assert after == before + [Emitted(last, read(last))];
      forall j | 0 <= j < |ls| ensures after[j] == Emitted(ls[j], read(ls[j])) {
        if j < |init| {
          assert ls[j] == init[j];
          assert after[j] == before[j];
        }
      }
    }
  }

  /** Lines without breaks are emitted without breaks, and a non-empty line stays
      non-empty. */
  lemma ScanLinesStayLines(ls: seq<string>, read: string -> Option<Times>)
    requires forall j :: 0 <= j < |ls| ==> NoLineBreak(ls[j])
    ensures |ScanOf(ls, read).lines| == |ls|
    ensures forall j :: 0 <= j < |ls| ==> NoLineBreak(ScanOf(ls, read).lines[j])
    ensures forall j :: 0 <= j < |ls| && ls[j] != "" ==> ScanOf(ls, read).lines[j] != ""
  {
    ScanLinesPointwise(ls, read);
    forall j | 0 <= j < |ls|
      ensures NoLineBreak(Emitted(ls[j], read(ls[j])))
      ensures ls[j] != "" ==> Emitted(ls[j], read(ls[j])) != ""
    {
      if read(ls[j]).Some? {
        AnnotateKeepsOneLine(ls[j], Duration(read(ls[j]).value));
      }
    }
  }

  /** One turn adds exactly the emitted line. */
  lemma StepLines(sc: Scan, line: string, m: Option<Times>)
    ensures Step(sc, line, m).lines == sc.lines + [Emitted(line, m)]
  {
  }

  /** The durations are those of the matching lines, in order; lines that do not match
      add none. */
  lemma {:induction false} ScanDurations(ls: seq<string>, read: string -> Option<Times>)
    ensures ScanOf(ls, read).durations == DurationsOf(Matched(ls, read))
    decreases |ls|
  {
    if ls != [] {
      ScanDurations(ls[..|ls| - 1], read);
    }
  }

  /** The earliest start is the least start of a matching line, `None` when none
      matched. */
  lemma {:induction false} ScanEarliest(ls: seq<string>, read: string -> Option<Times>)
    ensures ScanOf(ls, read).earliest.None? <==> Matched(ls, read) == []
    ensures ScanOf(ls, read).earliest.Some? ==>
      (forall t :: t in Matched(ls, read) ==> ScanOf(ls, read).earliest.value <= t.start) &&
      (exists t :: t in Matched(ls, read) && t.start == ScanOf(ls, read).earliest.value)
    decreases |ls|
  {
    if ls != [] {
      var init := ls[..|ls| - 1];
      var last := ls[|ls| - 1];
      ScanEarliest(init, read);
      var e := ScanOf(init, read).earliest;
      match read(last)
      case None =>
        assert ScanOf(ls, read).earliest == e && Matched(ls, read) == Matched(init, read);
      case Some(t) =>
        assert Matched(ls, read) == Matched(init, read) + [t];
        assert ScanOf(ls, read).earliest == Some(if e.None? then t.start else Min(e.value, t.start));
        EarliestStep(e, Matched(init, read), t);
    }
  }

  /** Taking the minimum with one more start keeps the earliest start of the matches. */
  lemma EarliestStep(e: Option<nat>, ts: seq<Times>, t: Times)
    requires e.None? <==> ts == []
    requires e.Some? ==> (forall u :: u in ts ==> e.value <= u.start) && (exists u :: u in ts && u.start == e.value)
    ensures var m := if e.None? then t.start else Min(e.value, t.start);
      (forall u :: u in ts + [t] ==> m <= u.start) && (exists u :: u in ts + [t] && u.start == m)
  {
    var m := if e.None? then t.start else Min(e.value, t.start);
    if m != t.start {
      var u :| u in ts && u.start == e.value;
      assert u in ts + [t];
    } else {
      assert t in ts + [t];
    }
  }

  /** The latest finish is the greatest finish of a matching line, `None` when none
      matched. */
  lemma {:induction false} ScanLatest(ls: seq<string>, read: string -> Option<Times>)
    ensures ScanOf(ls, read).latest.None? <==> Matched(ls, read) == []
    ensures ScanOf(ls, read).latest.Some? ==>
      (forall t :: t in Matched(ls, read) ==> t.finish <= ScanOf(ls, read).latest.value) &&
      (exists t :: t in Matched(ls, read) && t.finish == ScanOf(ls, read).latest.value)
    decreases |ls|
  {
    if ls != [] {
      var init := ls[..|ls| - 1];
      var last := ls[|ls| - 1];
      ScanLatest(init, read);
      var e := ScanOf(init, read).latest;
      match read(last)
      case None =>
        assert ScanOf(ls, read).latest == e && Matched(ls, read) == Matched(init, read);
      case Some(t) =>
        assert Matched(ls, read) == Matched(init, read) + [t];
        assert ScanOf(ls, read).latest == Some(if e.None? then t.finish else Max(e.value, t.finish));
        LatestStep(e, Matched(init, read), t);
    }
  }

  /** Taking the maximum with one more finish keeps the latest finish of the matches. */
  lemma LatestStep(e: Option<nat>, ts: seq<Times>, t: Times)
    requires e.None? <==> ts == []
    requires e.Some? ==> (forall u :: u in ts ==> u.finish <= e.value) && (exists u :: u in ts && u.finish == e.value)
    ensures var m := if e.None? then t.finish else Max(e.value, t.finish);
      (forall u :: u in ts + [t] ==> u.finish <= m) && (exists u :: u in ts + [t] && u.finish == m)
  {
    var m := if e.None? then t.finish else Max(e.value, t.finish);
    if m != t.finish {
      var u :| u in ts && u.finish == e.value;
      assert u in ts + [t];
    } else {
      assert t in ts + [t];
    }
  }

  // ---- the serializer's lines ----

  /** A line `format_edge` wrote passes the gate, is read back as its own start and
      finish, and is annotated in its `].` form with the span's duration. */
  lemma AnnotateFormattedEdge(s: Span, parent: Option<Span>)
    requires s.startMs >= 0 && FinishMs(s) >= 0
    requires NoStartsWord(EdgeHead(s, parent))
    ensures LineMatch(FormatEdge(s, parent)) == Some(Times(s.startMs, FinishMs(s)))
    ensures var line := FormatEdge(s, parent);
      Emitted(line, LineMatch(line)) ==
        line[..|line| - 2] + ", duration=" + NatToString(Duration(Times(s.startMs, FinishMs(s)))) + " ms]."
  {
    var line := FormatEdge(s, parent);
    FormatEdgeShape(s, parent);
    ScanFormattedEdge(s, parent);
    assert Gated(line);
    AnnotateClosedLine(line, Duration(Times(s.startMs, FinishMs(s))));
  }
}
