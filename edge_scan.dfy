/** The pattern both annotators search each edge line for,
    `starts\s+at\s*(\d+)\s*ms.*?finishes\s+at\s*(\d+)\s*ms` under `re.IGNORECASE`, as a
    scanner that follows Python's backtracking matcher: greedy runs of whitespace and
    digits, a lazy gap that stops at a newline, and the leftmost start position. */
module EdgeScan {
  import opened Wrappers
  import opened Text
  import opened SpanTree
  import opened EdgeFormat

  /** Whether `c` matches the lower-case pattern letter `p` under `re.IGNORECASE`: the
      letter in either case, and the characters Python's matcher also folds onto `s`
      (long s, U+017F) and onto `i` (U+0130 and U+0131). */
  predicate FoldsTo(c: char, p: char) {
    c == p || c == UpperChar(p) || (p == 's' && c == '\U{17F}') || (p == 'i' && (c == '\U{130}' || c == '\U{131}'))
  }

  /** The pattern word `w` (lower-case letters) matches `s` at index `i`. */
  predicate WordAt(s: string, i: int, w: string) {
    0 <= i && i + |w| <= |s| && forall k :: 0 <= k < |w| ==> FoldsTo(s[i + k], w[k])
  }

  /** Greedy `\s*` from `i`: the end of the whitespace run. */
  function SkipSpaces(s: string, i: nat): (j: nat)
    requires i <= |s|
    ensures i <= j <= |s|
    ensures forall k :: i <= k < j ==> IsSpace(s[k])
    ensures j < |s| ==> !IsSpace(s[j])
    decreases |s| - i
  {
    if i < |s| && IsSpace(s[i]) then SkipSpaces(s, i + 1) else i
  }

  /** Greedy `\d+` from `i`: the end of the run of ASCII digits. */
  function SkipDigits(s: string, i: nat): (j: nat)
    requires i <= |s|
    ensures i <= j <= |s| && AllDigits(s[i..j])
    ensures j < |s| ==> !IsDigit(s[j])
    decreases |s| - i
  {
    if i < |s| && IsDigit(s[i]) then
      var j := SkipDigits(s, i + 1);
      assert s[i..j] == [s[i]] + s[i + 1..j];
      j
    else i
  }

  /** A number read by one half of the pattern, and the index just past its `ms`. */
  datatype Part = Part(value: nat, end: nat)

  /** `<w>\s+at\s*(\d+)\s*ms` matched at index `i`. */
  function PartAt(s: string, i: nat, w: string): (r: Option<Part>)
    requires i <= |s|
    ensures r.Some? ==> WordAt(s, i, w) && i + |w| < r.value.end <= |s|
  {
    if !WordAt(s, i, w) then None else AtFrom(s, i + |w|)
  }

  /** `\s+at\s*(\d+)\s*ms` from index `j`. */
  function AtFrom(s: string, j: nat): (r: Option<Part>)
    requires j <= |s|
    ensures r.Some? ==> j < r.value.end <= |s|
  {
    var a := SkipSpaces(s, j);
    if a == j || !WordAt(s, a, "at") then None else NumberFrom(s, a + 2)
  }

  /** `\s*(\d+)\s*ms` from index `j`. */
  function NumberFrom(s: string, j: nat): (r: Option<Part>)
    requires j <= |s|
    ensures r.Some? ==> j < r.value.end <= |s|
  {
    var d := SkipSpaces(s, j);
    var e := SkipDigits(s, d);
    if e == d then None else MsAfter(s, d, e)
  }

  /** `\s*ms` after the digits `s[d..e]`: their value, once `ms` follows. */
  function MsAfter(s: string, d: nat, e: nat): (r: Option<Part>)
    requires d <= e <= |s| && AllDigits(s[d..e])
    ensures r.Some? ==> e < r.value.end <= |s|
  {
    var m := SkipSpaces(s, e);
    if !WordAt(s, m, "ms") then None else Some(Part(DecimalValue(s[d..e]), m + 2))
  }

  /** The finish part tried at every index of `s`. */
  function FinishParts(s: string): (r: seq<Option<Part>>)
    ensures |r| == |s| + 1
  {
    seq(|s| + 1, k requires 0 <= k <= |s| => PartAt(s, k, "finishes"))
  }

  /** `.*?` followed by the finish part, over the finish parts `ps` of `s`: the part at the
      first index from `k` on where one matches, as long as no newline (which `.` does
      not match) comes first. */
  function LazyFinish(s: string, ps: seq<Option<Part>>, k: nat): Option<Part>
    requires |ps| == |s| + 1 && k <= |s|
    decreases |s| - k
  {
    if ps[k].Some? then ps[k]
    else if k < |s| && s[k] != '\n' then LazyFinish(s, ps, k + 1)
    else None
  }

  /** `.*?finishes\s+at\s*(\d+)\s*ms` from index `k`. */
  function FinishFrom(s: string, k: nat): Option<Part>
    requires k <= |s|
  {
    LazyFinish(s, FinishParts(s), k)
  }

  /** The two numbers the pattern captures. */
  datatype Times = Times(start: nat, finish: nat)

  /** The whole pattern matched at index `p`. */
  function MatchAt(s: string, p: nat): Option<Times>
    requires p <= |s|
  {
    match PartAt(s, p, "starts")
    case None => None
    case Some(st) =>
      match FinishFrom(s, st.end)
      case None => None
      case Some(fi) => Some(Times(st.value, fi.value))
  }

  /** The pattern tried at every index of `s`. */
  function Matches(s: string): (r: seq<Option<Times>>)
    ensures |r| == |s| + 1
  {
    seq(|s| + 1, p requires 0 <= p <= |s| => MatchAt(s, p))
  }

  /** The first result in `ms` from index `p` on that is a match. */
  function FirstMatch(ms: seq<Option<Times>>, p: nat): Option<Times>
    requires p <= |ms|
    decreases |ms| - p
  {
    if p == |ms| then None
    else if ms[p].Some? then ms[p]
    else FirstMatch(ms, p + 1)
  }

  /** `START_FINISH_RE.search(s)`: the `(start, finish)` pair of the leftmost match. */
  function Search(s: string): Option<Times> {
    FirstMatch(Matches(s), 0)
  }

  /** A result of the search is the match at some index before which the pattern matches
      nowhere. */
  lemma SearchIsLeftmostMatch(s: string)
    ensures Search(s).Some? ==>
      exists q :: 0 <= q <= |s| && MatchAt(s, q) == Search(s) && forall k :: 0 <= k < q ==> MatchAt(s, k).None?
  {
    var ms := Matches(s);
    FirstMatchFound(ms, 0);
    assert forall k :: 0 <= k <= |s| ==> ms[k] == MatchAt(s, k);
  }

  /** A first match is found at some index with no match before it. */
  lemma {:induction false} FirstMatchFound(ms: seq<Option<Times>>, p: nat)
    requires p <= |ms|
    ensures FirstMatch(ms, p).Some? ==>
      exists q :: p <= q < |ms| && ms[q] == FirstMatch(ms, p) && forall k :: p <= k < q ==> ms[k].None?
    decreases |ms| - p
  {
    if p < |ms| {
      if ms[p].Some? {
        assert p <= p < |ms| && ms[p] == FirstMatch(ms, p);
      } else {
        FirstMatchFound(ms, p + 1);
      }
    }
  }

  /** The first match is the one at the leftmost index holding one. */
  lemma {:induction false} FirstMatchIsLeftmost(ms: seq<Option<Times>>, p: nat, q: nat)
    requires p <= q < |ms| && ms[q].Some?
    requires forall k :: p <= k < q ==> ms[k].None?
    ensures FirstMatch(ms, p) == ms[q]
    decreases q - p
  {
    if p < q {
      FirstMatchIsLeftmost(ms, p + 1, q);
    }
  }

  /** There is no first match only when nothing from `p` on is a match. */
  lemma {:induction false} FirstMatchNone(ms: seq<Option<Times>>, p: nat)
    requires p <= |ms|
    ensures FirstMatch(ms, p).None? <==> forall k :: p <= k < |ms| ==> ms[k].None?
    decreases |ms| - p
  {
    if p < |ms| {
      FirstMatchNone(ms, p + 1);
    }
  }

  /** The search reports the match at the leftmost index where the pattern matches. */
  lemma SearchFindsLeftmost(s: string, q: nat)
    requires q <= |s| && MatchAt(s, q).Some?
    requires forall k :: 0 <= k < q ==> MatchAt(s, k).None?
    ensures Search(s) == MatchAt(s, q)
  {
    var ms := Matches(s);
    forall k | 0 <= k < q ensures ms[k].None? {
      assert ms[k] == MatchAt(s, k);
    }
    FirstMatchIsLeftmost(ms, 0, q);
  }

  /** The search fails exactly when the pattern matches at no index. */
  lemma SearchFailsOnlyWithoutMatch(s: string)
    ensures Search(s).None? <==> forall k :: 0 <= k <= |s| ==> MatchAt(s, k).None?
  {
    var ms := Matches(s);
    FirstMatchNone(ms, 0);
    assert forall k :: 0 <= k <= |s| ==> ms[k] == MatchAt(s, k);
  }

  // ---- reading back what `format_edge` wrote ----

  /** `SkipSpaces` stops at the first non-space. */
  lemma {:induction false} SkipSpacesTo(s: string, i: nat, j: nat)
    requires i <= j <= |s|
    requires forall k :: i <= k < j ==> IsSpace(s[k])
    requires j < |s| ==> !IsSpace(s[j])
    ensures SkipSpaces(s, i) == j
    decreases j - i
  {
    if i < j {
      SkipSpacesTo(s, i + 1, j);
    }
  }

  /** `SkipDigits` stops at the first non-digit. */
  lemma {:induction false} SkipDigitsTo(s: string, i: nat, j: nat)
    requires i <= j <= |s|
    requires forall k :: i <= k < j ==> IsDigit(s[k])
    requires j < |s| ==> !IsDigit(s[j])
    ensures SkipDigits(s, i) == j
    decreases j - i
  {
    if i < j {
      SkipDigitsTo(s, i + 1, j);
    }
  }

  /** Every lower-case ASCII word matches itself. */
  lemma WordAtItself(x: string, w: string, y: string)
    ensures WordAt(x + w + y, |x|, w)
  {
    var s := x + w + y;
    forall k | 0 <= k < |w| ensures FoldsTo(s[|x| + k], w[k]) {
      assert s[|x| + k] == w[k];
    }
  }

  /** The characters `format_edge` writes around a number: ` at <digits> ms`. */
  predicate WrittenNumber(s: string, j: nat, e: nat) {
    j + 4 < e && e + 3 <= |s| &&
    s[j] == ' ' && s[j + 1] == 'a' && s[j + 2] == 't' && s[j + 3] == ' ' &&
    AllDigits(s[j + 4..e]) &&
    s[e] == ' ' && s[e + 1] == 'm' && s[e + 2] == 's'
  }

  /** `<w> at <d> ms` written at `i`, with ` ms` at `e`. */
  predicate WrittenPart(s: string, i: nat, w: string, e: nat, d: string) {
    WordAt(s, i, w) && WrittenNumber(s, i + |w|, e) && s[i + |w| + 4..e] == d
  }

  /** ` ms` right after the digits `s[d..e]` is accepted, and the part is their value. */
  lemma MsAfterWritten(s: string, d: nat, e: nat)
    requires d <= e && e + 3 <= |s| && AllDigits(s[d..e])
    requires s[e] == ' ' && s[e + 1] == 'm' && s[e + 2] == 's'
    ensures MsAfter(s, d, e) == Some(Part(DecimalValue(s[d..e]), e + 3))
  {
    SkipSpacesTo(s, e, e + 1);
    assert FoldsTo(s[e + 1], "ms"[0]) && FoldsTo(s[e + 2], "ms"[1]);
  }

  /** ` at <digits> ms` from `j` is read as the value of the digits. */
  lemma AtFromWritten(s: string, j: nat, e: nat)
    requires WrittenNumber(s, j, e)
    ensures AtFrom(s, j) == Some(Part(DecimalValue(s[j + 4..e]), e + 3))
  {
    SkipSpacesTo(s, j, j + 1);
    assert FoldsTo(s[j + 1], "at"[0]) && FoldsTo(s[j + 2], "at"[1]);
    assert WordAt(s, j + 1, "at");
    NumberFromWritten(s, j + 3, e);
  }

  /** ` <digits> ms` from `j` is read as the value of the digits. */
  lemma NumberFromWritten(s: string, j: nat, e: nat)
    requires j + 1 < e && e + 3 <= |s| && s[j] == ' ' && AllDigits(s[j + 1..e])
    requires s[e] == ' ' && s[e + 1] == 'm' && s[e + 2] == 's'
    ensures NumberFrom(s, j) == Some(Part(DecimalValue(s[j + 1..e]), e + 3))
  {
    SkipSpacesTo(s, j, j + 1);
    forall k | j + 1 <= k < e ensures IsDigit(s[k]) {
      assert s[k] == s[j + 1..e][k - j - 1];
    }
    SkipDigitsTo(s, j + 1, e);
    MsAfterWritten(s, j + 1, e);
  }

  /** The lazy gap passes over characters that cannot start `finishes` and are not
      newlines. */
  lemma {:induction false} LazyFinishSkips(s: string, k: nat, j: nat)
    requires k <= j <= |s|
    requires forall q :: k <= q < j ==> s[q] != 'f' && s[q] != 'F' && s[q] != '\n'
    ensures LazyFinish(s, FinishParts(s), k) == LazyFinish(s, FinishParts(s), j)
    decreases j - k
  {
    if k < j {
      assert !FoldsTo(s[k], "finishes"[0]);
      assert FinishParts(s)[k] == PartAt(s, k, "finishes");
      LazyFinishSkips(s, k + 1, j);
    }
  }

  /** No index of `head` starts the word `starts`, in any case. */
  predicate NoStartsWord(head: string) {
    forall p :: 0 <= p <= |head| - 6 ==> !WordAt(head, p, "starts")
  }

  /** Before the end of a head that ends in a space and holds no `starts`, the pattern
      cannot begin. */
  lemma NoStartsBefore(head: string, line: string, p: nat)
    requires NoStartsWord(head) && |head| > 0 && head[|head| - 1] == ' '
    requires |head| <= |line| && line[..|head|] == head
    requires p < |head|
    ensures MatchAt(line, p).None?
  {
    if p + 6 <= |head| {
      assert !WordAt(head, p, "starts");
      var k :| 0 <= k < 6 && !FoldsTo(head[p + k], "starts"[k]);
      assert line[p + k] == head[p + k];
    } else if p + 6 <= |line| {
      var k := |head| - 1 - p;
      assert line[p + k] == ' ';
      assert !FoldsTo(line[p + k], "starts"[k]);
    }
  }

  /** No match begins inside a head that ends in a space and holds no `starts`. */
  lemma NoMatchInHead(line: string, h: nat)
    requires 0 < h <= |line| && NoStartsWord(line[..h]) && line[h - 1] == ' '
    ensures forall p :: 0 <= p < h ==> MatchAt(line, p).None?
  {
    forall p | 0 <= p < h ensures MatchAt(line, p).None? {
      NoStartsBefore(line[..h], line, p);
    }
  }

  /** After a gap free of `f` and newlines, the lazy gap stops at the finish part. */
  lemma FinishAfterGap(line: string, k: nat, g: nat, fi: Part)
    requires k <= g <= |line|
    requires forall q :: k <= q < g ==> line[q] != 'f' && line[q] != 'F' && line[q] != '\n'
    requires PartAt(line, g, "finishes") == Some(fi)
    ensures FinishFrom(line, k) == Some(fi)
  {
    LazyFinishSkips(line, k, g);
    assert FinishParts(line)[g] == PartAt(line, g, "finishes");
  }

  /** The word `w` at `i` followed by the rest of a part from `j` is that part. */
  lemma PartAtWord(s: string, i: nat, w: string, j: nat, p: Part)
    requires j == i + |w| && j <= |s| && WordAt(s, i, w) && AtFrom(s, j) == Some(p)
    ensures PartAt(s, i, w) == Some(p)
  {
  }

  /** `<w> at <digits> ms` at index `i`, the ` at ` beginning at `j` and ` ms` at `e`, is
      read as the value of the digits. */
  lemma PartAtChars(s: string, i: nat, w: string, j: nat, e: nat)
    requires j == i + |w| && WordAt(s, i, w) && WrittenNumber(s, j, e)
    ensures PartAt(s, i, w) == Some(Part(DecimalValue(s[j + 4..e]), e + 3))
  {
    AtFromWritten(s, j, e);
    PartAtWord(s, i, w, j, Part(DecimalValue(s[j + 4..e]), e + 3));
  }

  /** `finishes at <digits> ms` at `g`, after a gap free of `f` and newlines from `k`, is
      the finish part the lazy gap from `k` finds. */
  lemma FinishChars(s: string, k: nat, g: nat, e: nat)
    requires k <= g && WordAt(s, g, "finishes") && WrittenNumber(s, g + 8, e)
    requires forall q :: k <= q < g ==> s[q] != 'f' && s[q] != 'F' && s[q] != '\n'
    ensures FinishFrom(s, k) == Some(Part(DecimalValue(s[g + 12..e]), e + 3))
  {
    PartAtChars(s, g, "finishes", g + 8, e);
    FinishAfterGap(s, k, g, Part(DecimalValue(s[g + 12..e]), e + 3));
  }

  /** `starts at <digits> ms` at `h` is the start part, read as the value of the digits. */
  lemma StartChars(s: string, h: nat, e: nat, k: nat)
    requires WordAt(s, h, "starts") && WrittenNumber(s, h + 6, e) && k == e + 3
    ensures PartAt(s, h, "starts") == Some(Part(DecimalValue(s[h + 10..e]), k))
  {
    PartAtChars(s, h, "starts", h + 6, e);
  }

  /** Equal runs of digits read as equal values. */
  lemma SameValue(a: string, b: string)
    requires AllDigits(a) && a == b
    ensures AllDigits(b) && DecimalValue(a) == DecimalValue(b)
  {
  }

  /** The head `line[..h]` ends in a space and holds no `starts`. */
  predicate CleanHead(line: string, h: nat) {
    0 < h <= |line| && NoStartsWord(line[..h]) && line[h - 1] == ' '
  }

  /** `line[k..g]` holds no `f` (in either case) and no newline. */
  predicate GapFree(line: string, k: nat, g: nat) {
    k <= g <= |line| && forall q :: k <= q < g ==> line[q] != 'f' && line[q] != 'F' && line[q] != '\n'
  }

  // The lemmas that put the halves of a line together state their facts as one
  // implication each, so that a caller holding the same facts passes them on whole.

  /** `starts at <d> ms` at `h`, with ` ms` at `e`, is the start part read as the value of
      `d`. */
  lemma StartPartOf(line: string, h: nat, e: nat, d: string)
    ensures WrittenPart(line, h, "starts", e, d) ==>
      AllDigits(d) && PartAt(line, h, "starts") == Some(Part(DecimalValue(d), e + 3))
  {
    if WrittenPart(line, h, "starts", e, d) {
      StartChars(line, h, e, e + 3);
      SameValue(line[h + 10..e], d);
    }
  }

  /** `finishes at <d> ms` at `g`, with ` ms` at `e`, after a gap free of `f` and newlines
      from `k`, is the finish part read as the value of `d`. */
  lemma FinishPartOf(line: string, k: nat, g: nat, e: nat, d: string)
    ensures GapFree(line, k, g) && WrittenPart(line, g, "finishes", e, d) ==>
      AllDigits(d) && FinishFrom(line, k) == Some(Part(DecimalValue(d), e + 3))
  {
    if GapFree(line, k, g) && WrittenPart(line, g, "finishes", e, d) {
      FinishChars(line, k, g, e);
      SameValue(line[g + 12..e], d);
    }
  }

  /** The whole pattern at `p` is the start part there and the finish part after it. */
  lemma MatchAtParts(line: string, p: nat, st: Part, fi: Part)
    ensures p <= |line| && PartAt(line, p, "starts") == Some(st) &&
            st.end <= |line| && FinishFrom(line, st.end) == Some(fi) ==>
      MatchAt(line, p) == Some(Times(st.value, fi.value))
  {
  }

  /** A match right after a head that holds no `starts` is the one the search finds. */
  lemma SearchFromMatch(line: string, h: nat, t: Times)
    ensures CleanHead(line, h) && MatchAt(line, h) == Some(t) ==> Search(line) == Some(t)
  {
    if CleanHead(line, h) && MatchAt(line, h) == Some(t) {
      NoMatchInHead(line, h);
      SearchFindsLeftmost(line, h);
    }
  }

  /** A line whose head `line[..h]` ends in a space and holds no `starts`, followed by
      `starts at <d1> ms` (` ms` at `e1`), a gap free of `f` and newlines, and
      `finishes at <d2> ms` at `g` (` ms` at `e2`), is read as the values of `d1` and
      `d2`. */
  lemma SearchChars(line: string, h: nat, e1: nat, d1: string, g: nat, e2: nat, d2: string)
    requires CleanHead(line, h) && WrittenPart(line, h, "starts", e1, d1)
    requires GapFree(line, e1 + 3, g) && WrittenPart(line, g, "finishes", e2, d2)
    ensures AllDigits(d1) && AllDigits(d2) && Search(line) == Some(Times(DecimalValue(d1), DecimalValue(d2)))
  {
    StartPartOf(line, h, e1, d1);
    FinishPartOf(line, e1 + 3, g, e2, d2);
    var st, fi := Part(DecimalValue(d1), e1 + 3), Part(DecimalValue(d2), e2 + 3);
    MatchAtParts(line, h, st, fi);
    SearchFromMatch(line, h, Times(st.value, fi.value));
  }

  // ---- the lines `format_edge` writes ----

  /** ` at <d> ms` written after `x`: the characters `WrittenNumber` asks for, and the
      digits where the number is read. */
  lemma WrittenItself(x: string, d: string, y: string)
    requires |d| > 0 && AllDigits(d)
    ensures WrittenNumber(x + " at " + d + " ms" + y, |x|, |x| + 4 + |d|)
    ensures (x + " at " + d + " ms" + y)[|x| + 4..|x| + 4 + |d|] == d
  {
    var s := x + " at " + d + " ms" + y;
    var e := |x| + 4 + |d|;
    assert s[|x|] == ' ' && s[|x| + 1] == 'a' && s[|x| + 2] == 't' && s[|x| + 3] == ' ';
    assert s[e] == ' ' && s[e + 1] == 'm' && s[e + 2] == 's';
    assert s == (x + " at ") + d + (" ms" + y);
    OccursAtJoin(x + " at ", d, " ms" + y);
  }

  /** The head of an edge line, when it ends in a space and holds no `starts`. */
  lemma EdgeHeadClean(head: string, st: string, ft: string)
    requires |head| > 0 && head[|head| - 1] == ' ' && NoStartsWord(head)
    ensures CleanHead(head + st + ft, |head|)
  {
    var line := head + st + ft;
    assert line[..|head|] == head;
    assert line[|head| - 1] == head[|head| - 1];
  }

  /** The start half of an edge line: `starts at <d> ms` right after the head. */
  lemma EdgeStartChars(head: string, d: string, ft: string)
    requires |d| > 0 && AllDigits(d)
    ensures WrittenPart(head + ("starts at " + d + " ms, Communication ") + ft, |head|, "starts", |head| + 10 + |d|, d)
  {
    var rest := ", Communication " + ft;
    var line := head + ("starts at " + d + " ms, Communication ") + ft;
    assert line == head + "starts" + (" at " + d + " ms" + rest);
    WordAtItself(head, "starts", " at " + d + " ms" + rest);
    assert line == (head + "starts") + " at " + d + " ms" + rest;
    WrittenItself(head + "starts", d, rest);
  }

  /** Between the halves of an edge line comes `, Communication `, which holds no `f` and
      no newline. */
  lemma EdgeGapChars(head: string, d: string, ft: string)
    ensures GapFree(head + ("starts at " + d + " ms, Communication ") + ft, |head| + 10 + |d| + 3,
                    |head + ("starts at " + d + " ms, Communication ")|)
  {
    var mid := ", Communication ";
    var line := head + ("starts at " + d + " ms, Communication ") + ft;
    assert line == (head + "starts at " + d + " ms") + mid + ft;
    forall q | |head| + 13 + |d| <= q < |head| + 29 + |d| ensures line[q] != 'f' && line[q] != 'F' && line[q] != '\n' {
      assert line[q] == mid[q - (|head| + 13 + |d|)];
    }
  }

  /** The finish half of an edge line: `finishes at <d> ms].` after the first half. */
  lemma EdgeFinishChars(x: string, d: string)
    requires |d| > 0 && AllDigits(d)
    ensures WrittenPart(x + ("finishes at " + d + " ms]."), |x|, "finishes", |x| + 12 + |d|, d)
  {
    var line := x + ("finishes at " + d + " ms].");
    assert line == x + "finishes" + (" at " + d + " ms" + "].");
    WordAtItself(x, "finishes", " at " + d + " ms" + "].");
    assert line == (x + "finishes") + " at " + d + " ms" + "].";
    WrittenItself(x + "finishes", d, "].");
  }

  /** An edge line with a head that ends in a space and holds no `starts`, written with
      the digits `d1` and `d2`, is read back as their values. */
  lemma ScanEdgeDigits(head: string, d1: string, d2: string)
    requires |head| > 0 && head[|head| - 1] == ' ' && NoStartsWord(head)
    requires |d1| > 0 && AllDigits(d1) && |d2| > 0 && AllDigits(d2)
    ensures Search(head + ("starts at " + d1 + " ms, Communication ") + ("finishes at " + d2 + " ms].")) ==
            Some(Times(DecimalValue(d1), DecimalValue(d2)))
  {
    var ft := "finishes at " + d2 + " ms].";
    var x := head + ("starts at " + d1 + " ms, Communication ");
    EdgeHeadClean(head, "starts at " + d1 + " ms, Communication ", ft);
    EdgeStartChars(head, d1, ft);
    EdgeGapChars(head, d1, ft);
    EdgeFinishChars(x, d2);
    SearchChars(x + ft, |head|, |head| + 10 + |d1|, d1, |x|, |x| + 12 + |d2|, d2);
  }

  /** An edge line with a head that ends in a space and holds no `starts` is read back as
      its two times. */
  lemma ScanEdgeText(head: string, start: nat, finish: nat)
    requires |head| > 0 && head[|head| - 1] == ' ' && NoStartsWord(head)
    ensures Search(head + StartsText(start) + FinishesText(finish)) == Some(Times(start, finish))
  {
    assert StartsText(start) == "starts at " + NatToString(start) + " ms, Communication ";
    assert FinishesText(finish) == "finishes at " + NatToString(finish) + " ms].";
    ScanEdgeDigits(head, NatToString(start), NatToString(finish));
    DecimalValueOfNatToString(start);
    DecimalValueOfNatToString(finish);
  }

  /** Searching a line `format_edge` wrote gives back the start and finish times, as long
      as both are non-negative and the head (span id and service names) does not hold
      the word `starts`. */
  lemma ScanFormattedEdge(s: Span, parent: Option<Span>)
    requires s.startMs >= 0 && FinishMs(s) >= 0
    requires NoStartsWord(EdgeHead(s, parent))
    ensures Search(FormatEdge(s, parent)) == Some(Times(s.startMs, FinishMs(s)))
  {
    EdgeHeadShape(s, parent);
    ScanEdgeText(EdgeHead(s, parent), s.startMs, FinishMs(s));
  }
}
