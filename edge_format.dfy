/** One span rendered as an edge line (`get_communication_type` and `format_edge` in
    transform4.py). */
module EdgeFormat {
  import opened Wrappers
  import opened Text
  import opened SpanTree

  /** The communication types an operation name is classified into. */
  datatype CommType = Unknown | Http | Grpc | Database | Rpc

  function CommTypeName(t: CommType): string {
    match t
    case Unknown => "UNKNOWN"
    case Http => "HTTP"
    case Grpc => "GRPC"
    case Database => "DATABASE"
    case Rpc => "RPC"
  }

  /** `get_communication_type(operation_name)`: the first rule that applies, in order of
      priority: no name, `HTTP` in any case, `grpc` in any case, `DB` or `SQL` in any
      case, anything else. The source tests `in` on the upper- or lower-cased name; the
      contract states each rule as a mention of the key in any ASCII case. */
  function CommunicationType(op: Option<string>): (t: CommType)
    ensures t == Unknown <==> op.None?
    ensures t == Http <==> op.Some? && Mentions(op.value, "HTTP")
    ensures t == Grpc <==> op.Some? && !Mentions(op.value, "HTTP") && Mentions(op.value, "grpc")
    ensures t == Database <==>
      (op.Some? && !Mentions(op.value, "HTTP") && !Mentions(op.value, "grpc") &&
       (Mentions(op.value, "DB") || Mentions(op.value, "SQL")))
    ensures t == Rpc <==>
      (op.Some? && !Mentions(op.value, "HTTP") && !Mentions(op.value, "grpc") &&
       !Mentions(op.value, "DB") && !Mentions(op.value, "SQL"))
  {
    match op
    case None => Unknown
    case Some(name) =>
      UpperContains(name, "HTTP");
      LowerContains(name, "grpc");
      UpperContains(name, "DB");
      UpperContains(name, "SQL");
      if Contains(Upper(name), "HTTP") then Http
      else if Contains(Lower(name), "grpc") then Grpc
      else if Contains(Upper(name), "DB") || Contains(Upper(name), "SQL") then Database
      else Rpc
  }

  /** Upper-casing twice is upper-casing once. */
  lemma UpperUpper(s: string)
    ensures Upper(Upper(s)) == Upper(s)
  {
  }

  /** Lower-casing after upper-casing is lower-casing. */
  lemma LowerUpper(s: string)
    ensures Lower(Upper(s)) == Lower(s)
  {
  }

  /** Upper-casing after lower-casing is upper-casing. */
  lemma UpperLower(s: string)
    ensures Upper(Lower(s)) == Upper(s)
  {
  }

  /** Lower-casing twice is lower-casing once. */
  lemma LowerLower(s: string)
    ensures Lower(Lower(s)) == Lower(s)
  {
  }

  /** The classification ignores the case of the (ASCII) operation name. */
  lemma CommunicationTypeIgnoresCase(name: string)
    ensures CommunicationType(Some(Upper(name))) == CommunicationType(Some(name))
    ensures CommunicationType(Some(Lower(name))) == CommunicationType(Some(name))
  {
    UpperUpper(name);
    LowerUpper(name);
    UpperLower(name);
    LowerLower(name);
  }

  /** `parent_span.service_name if parent_span else "Client"`. */
  function SourceName(parent: Option<Span>): (r: string)
    ensures parent.None? ==> r == "Client"
    ensures parent.Some? ==> r == parent.value.serviceName
  {
    match parent
    case None => "Client"
    case Some(p) => p.serviceName
  }

  /** The finish time: the start plus the duration truncated to whole milliseconds. */
  function FinishMs(s: Span): int {
    s.startMs + s.durationMs
  }

  /** The line up to the point where the two times are written. */
  function EdgeHead(s: Span, parent: Option<Span>): string {
    "[Edge ID is " + s.spanId + ", Source is " + SourceName(parent) + ", Destination is " + s.serviceName +
    ", Type is " + CommTypeName(CommunicationType(s.operationName)) + ", Communication "
  }

  /** The rest of the line: start and finish time in milliseconds. */
  function StartsText(start: int): string {
    "starts at " + IntToString(start) + " ms, Communication "
  }

  function FinishesText(finish: int): string {
    "finishes at " + IntToString(finish) + " ms]."
  }

  /** `format_edge(span, parent_span)`. The line holds no line break exactly when the
      span id and the two service names hold none, so written out with its `"\n"` it is
      one line of the sequence. */
  function FormatEdge(s: Span, parent: Option<Span>): (r: string)
    ensures NoLineBreak(r) <==>
      NoLineBreak(s.spanId) && NoLineBreak(SourceName(parent)) && NoLineBreak(s.serviceName)
  {
    var t := CommunicationType(s.operationName);
    TypeNameOneLine(t);
    HeadBreaks(s.spanId, SourceName(parent), s.serviceName, CommTypeName(t));
    TimesOneLine(s.startMs, FinishMs(s));
    NoLineBreakConcat(EdgeHead(s, parent), StartsText(s.startMs));
    NoLineBreakConcat(EdgeHead(s, parent) + StartsText(s.startMs), FinishesText(FinishMs(s)));
    EdgeHead(s, parent) + StartsText(s.startMs) + FinishesText(FinishMs(s))
  }

  lemma TypeNameOneLine(t: CommType)
    ensures NoLineBreak(CommTypeName(t))
  {
  }

  /** The time texts never hold a line break. */
  lemma TimesOneLine(start: int, finish: int)
    ensures NoLineBreak(StartsText(start)) && NoLineBreak(FinishesText(finish))
  {
    TimeWordsOneLine();
    NumberOneLine(start);
    NumberOneLine(finish);
    NoLineBreakConcat("starts at ", IntToString(start));
    NoLineBreakConcat("starts at " + IntToString(start), " ms, Communication ");
    NoLineBreakConcat("finishes at ", IntToString(finish));
    NoLineBreakConcat("finishes at " + IntToString(finish), " ms].");
  }

  /** A number written in decimal holds no break. */
  lemma NumberOneLine(i: int)
    ensures NoLineBreak(IntToString(i))
  {
    IntToStringChars(i);
  }

  /** The fixed words around the times hold no break. */
  lemma TimeWordsOneLine()
    ensures NoLineBreak("starts at ") && NoLineBreak(" ms, Communication ")
    ensures NoLineBreak("finishes at ") && NoLineBreak(" ms].")
  {
  }

  /** The fixed words of the head hold no break. */
  lemma HeadWordsOneLine()
    ensures NoLineBreak("[Edge ID is ") && NoLineBreak(", Source is ") && NoLineBreak(", Destination is ")
    ensures NoLineBreak(", Type is ") && NoLineBreak(", Communication ")
  {
  }

  /** The head holds a break exactly when the id or one of the service names does. */
  lemma HeadBreaks(id: string, src: string, dst: string, tn: string)
    requires NoLineBreak(tn)
    ensures NoLineBreak("[Edge ID is " + id + ", Source is " + src + ", Destination is " + dst +
                        ", Type is " + tn + ", Communication ") <==>
      NoLineBreak(id) && NoLineBreak(src) && NoLineBreak(dst)
  {
    var a := "[Edge ID is " + id;
    var b := a + ", Source is " + src;
    var c := b + ", Destination is " + dst;
    var d := c + ", Type is " + tn;
    HeadWordsOneLine();
    NoLineBreakConcat("[Edge ID is ", id);
    NoLineBreakConcat(a, ", Source is ");
    NoLineBreakConcat(a + ", Source is ", src);
    NoLineBreakConcat(b, ", Destination is ");
    NoLineBreakConcat(b + ", Destination is ", dst);
    NoLineBreakConcat(c, ", Type is ");
    NoLineBreakConcat(c + ", Type is ", tn);
    NoLineBreakConcat(d, ", Communication ");
  }

  /** The head of an edge line opens with `[` and ends in the space before the times. */
  lemma EdgeHeadShape(s: Span, parent: Option<Span>)
    ensures |EdgeHead(s, parent)| > 0 && EdgeHead(s, parent)[0] == '['
    ensures EdgeHead(s, parent)[|EdgeHead(s, parent)| - 1] == ' '
  {
  }

  /** Every edge line opens with `[`, closes with `].`, and holds `starts at` right after
      the head and `finishes at` after that, so it always passes the annotator's gate. */
  lemma FormatEdgeShape(s: Span, parent: Option<Span>)
    ensures StartsWith(FormatEdge(s, parent), "[") && EndsWith(FormatEdge(s, parent), "].")
    ensures OccursAt(FormatEdge(s, parent), "starts at", |EdgeHead(s, parent)|)
    ensures Contains(FormatEdge(s, parent), "starts at") && Contains(FormatEdge(s, parent), "finishes at")
  {
    EdgeHeadShape(s, parent);
    StartsTextOpens(s.startMs);
    FinishesTextShape(FinishMs(s));
    LineShape(EdgeHead(s, parent), StartsText(s.startMs), FinishesText(FinishMs(s)));
  }

  /** The start text opens with `starts at`. */
  lemma StartsTextOpens(start: int)
    ensures |StartsText(start)| >= 9 && StartsText(start)[..9] == "starts at"
  {
  }

  /** The finish text opens with `finishes at` and closes with `].`. */
  lemma FinishesTextShape(finish: int)
    ensures var ft := FinishesText(finish);
      |ft| >= 11 && ft[..11] == "finishes at" && ft[|ft| - 2..] == "]."
  {
    var ft := FinishesText(finish);
    assert ft[|ft| - 2..] == " ms]."[3..];
  }

  /** The three pieces of an edge line give it the shape the annotator looks for. */
  lemma LineShape(head: string, st: string, ft: string)
    requires |head| > 0 && head[0] == '['
    requires |st| >= 9 && st[..9] == "starts at"
    requires |ft| >= 11 && ft[..11] == "finishes at" && ft[|ft| - 2..] == "]."
    ensures StartsWith(head + st + ft, "[") && EndsWith(head + st + ft, "].")
    ensures OccursAt(head + st + ft, "starts at", |head|) && Contains(head + st + ft, "starts at")
    ensures Contains(head + st + ft, "finishes at")
  {
    var r := head + st + ft;
    assert r[..1] == "[";
    assert r[|r| - 2..] == ft[|ft| - 2..];
    assert r == head + "starts at" + (st[9..] + ft);
    OccursAtJoin(head, "starts at", st[9..] + ft);
    assert r == (head + st) + "finishes at" + ft[11..];
    OccursAtJoin(head + st, "finishes at", ft[11..]);
  }
}
