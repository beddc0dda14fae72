/** String helpers shared by the serializer and the annotator: Python's notion of
    whitespace and line breaks, prefix/suffix/substring tests, ASCII case mapping,
    decimal rendering of integers and the `splitlines` / `"\n".join` pair. */
module Text {

  /** Characters for which Python's `str.isspace()` holds; regex `\s` matches the same set. */
  predicate IsSpace(c: char) {
    c == ' ' || ('\t' <= c <= '\r') || ('\U{1C}' <= c <= '\U{1F}') || c == '\U{85}' ||
    c == '\U{A0}' || c == '\U{1680}' || ('\U{2000}' <= c <= '\U{200A}') ||
    c == '\U{2028}' || c == '\U{2029}' || c == '\U{202F}' || c == '\U{205F}' || c == '\U{3000}'
  }

  /** Characters at which Python's `str.splitlines()` ends a line. */
  predicate IsLineBreak(c: char) {
    c == '\n' || c == '\r' || c == '\U{B}' || c == '\U{C}' || ('\U{1C}' <= c <= '\U{1E}') ||
    c == '\U{85}' || c == '\U{2028}' || c == '\U{2029}'
  }

  predicate IsDigit(c: char) {
    '0' <= c <= '9'
  }

  predicate AllDigits(s: string) {
    forall i :: 0 <= i < |s| ==> IsDigit(s[i])
  }

  /** `not s.strip()`: the line holds nothing but whitespace. */
  predicate IsBlank(s: string) {
    forall i :: 0 <= i < |s| ==> IsSpace(s[i])
  }

  predicate StartsWith(s: string, p: string) {
    |p| <= |s| && s[..|p|] == p
  }

  predicate EndsWith(s: string, p: string) {
    |p| <= |s| && s[|s| - |p|..] == p
  }

  /** `p` occurs in `s` starting at index `i`. */
  predicate OccursAt(s: string, p: string, i: int) {
    0 <= i <= |s| - |p| && s[i..i + |p|] == p
  }

  /** `p in s` for strings. */
  predicate Contains(s: string, p: string) {
    exists i | 0 <= i <= |s| - |p| :: OccursAt(s, p, i)
  }

  /** A piece placed between two others occurs right after the first. */
  lemma OccursAtJoin(x: string, p: string, y: string)
    ensures OccursAt(x + p + y, p, |x|) && Contains(x + p + y, p)
  {
    assert (x + p + y)[|x|..|x| + |p|] == p;
    assert OccursAt(x + p + y, p, |x|);
  }

  /** A string ends with what was appended last and starts with what came first. */
  lemma JoinEnds(x: string, y: string)
    ensures StartsWith(x + y, x) && EndsWith(x + y, y)
  {
    assert (x + y)[..|x|] == x;
    assert (x + y)[|x + y| - |y|..] == y;
  }

  /** A string that does not end in whitespace is its own `rstrip()`. */
  lemma RStripKeeps(s: string)
    requires s == [] || !IsSpace(s[|s| - 1])
    ensures RStrip(s) == s
  {
  }

  /** `s.rstrip()`: the longest prefix of `s` that does not end in whitespace. */
  function RStrip(s: string): (r: string)
    ensures |r| <= |s| && r == s[..|r|]
    ensures forall i :: |r| <= i < |s| ==> IsSpace(s[i])
    ensures |r| > 0 ==> !IsSpace(r[|r| - 1])
  {
    if |s| > 0 && IsSpace(s[|s| - 1]) then RStrip(s[..|s| - 1]) else s
  }

  function UpperChar(c: char): char {
    if 'a' <= c <= 'z' then c - 'a' + 'A' else c
  }

  function LowerChar(c: char): char {
    if 'A' <= c <= 'Z' then c - 'A' + 'a' else c
  }

  /** `s.upper()` on ASCII letters. */
  function Upper(s: string): (r: string)
    ensures |r| == |s| && forall i :: 0 <= i < |s| ==> r[i] == UpperChar(s[i])
  {
    if s == [] then [] else [UpperChar(s[0])] + Upper(s[1..])
  }

  /** `s.lower()` on ASCII letters. */
  function Lower(s: string): (r: string)
    ensures |r| == |s| && forall i :: 0 <= i < |s| ==> r[i] == LowerChar(s[i])
  {
    if s == [] then [] else [LowerChar(s[0])] + Lower(s[1..])
  }

  /** Two characters are the same up to ASCII case. */
  predicate SameIgnoringCase(a: char, b: char) {
    a == b || ('a' <= a <= 'z' && b as int == a as int - 32) || ('A' <= a <= 'Z' && b as int == a as int + 32)
  }

  /** `key` is written at index `i` of `s`, letter by letter in any ASCII case. */
  predicate MentionsAt(s: string, key: string, i: int) {
    0 <= i <= |s| - |key| && forall k :: 0 <= k < |key| ==> SameIgnoringCase(s[i + k], key[k])
  }

  /** `key` is written somewhere in `s`, in any ASCII case. */
  predicate Mentions(s: string, key: string) {
    exists i | 0 <= i <= |s| - |key| :: MentionsAt(s, key, i)
  }

  /** For a key of capital letters, `key in s.upper()` is a mention of the key in any case. */
  lemma UpperContains(s: string, key: string)
    requires forall k :: 0 <= k < |key| ==> 'A' <= key[k] <= 'Z'
    ensures Contains(Upper(s), key) <==> Mentions(s, key)
  {
    forall i | 0 <= i <= |s| - |key| ensures OccursAt(Upper(s), key, i) <==> MentionsAt(s, key, i) {
      UpperAt(s, key, i);
    }
  }

  /** At one index, the upper-cased text holds a key of capital letters exactly when the
      text mentions it there in any case. */
  lemma UpperAt(s: string, key: string, i: int)
    requires forall k :: 0 <= k < |key| ==> 'A' <= key[k] <= 'Z'
    requires 0 <= i <= |s| - |key|
    ensures OccursAt(Upper(s), key, i) <==> MentionsAt(s, key, i)
  {
    var u := Upper(s);
    forall k | 0 <= k < |key| ensures u[i + k] == key[k] <==> SameIgnoringCase(s[i + k], key[k]) {
      UpperCharMatches(s[i + k], key[k]);
    }
    OccursPointwise(u, key, i);
  }

  /** A capital letter is the upper case of exactly the characters equal to it up to case. */
  lemma UpperCharMatches(c: char, x: char)
    requires 'A' <= x <= 'Z'
    ensures UpperChar(c) == x <==> SameIgnoringCase(c, x)
  {
  }

  /** For a key of small letters, `key in s.lower()` is a mention of the key in any case. */
  lemma LowerContains(s: string, key: string)
    requires forall k :: 0 <= k < |key| ==> 'a' <= key[k] <= 'z'
    ensures Contains(Lower(s), key) <==> Mentions(s, key)
  {
    forall i | 0 <= i <= |s| - |key| ensures OccursAt(Lower(s), key, i) <==> MentionsAt(s, key, i) {
      LowerAt(s, key, i);
    }
  }

  /** At one index, the lower-cased text holds a key of small letters exactly when the
      text mentions it there in any case. */
  lemma LowerAt(s: string, key: string, i: int)
    requires forall k :: 0 <= k < |key| ==> 'a' <= key[k] <= 'z'
    requires 0 <= i <= |s| - |key|
    ensures OccursAt(Lower(s), key, i) <==> MentionsAt(s, key, i)
  {
    var l := Lower(s);
    forall k | 0 <= k < |key| ensures l[i + k] == key[k] <==> SameIgnoringCase(s[i + k], key[k]) {
      LowerCharMatches(s[i + k], key[k]);
    }
    OccursPointwise(l, key, i);
  }

  /** A small letter is the lower case of exactly the characters equal to it up to case. */
  lemma LowerCharMatches(c: char, x: char)
    requires 'a' <= x <= 'z'
    ensures LowerChar(c) == x <==> SameIgnoringCase(c, x)
  {
  }

  /** `p` occurs at `i` exactly when it agrees with `s` character by character from there. */
  lemma OccursPointwise(s: string, p: string, i: int)
    requires 0 <= i <= |s| - |p|
    ensures OccursAt(s, p, i) <==> forall k :: 0 <= k < |p| ==> s[i + k] == p[k]
  {
    if forall k :: 0 <= k < |p| ==> s[i + k] == p[k] {
      assert s[i..i + |p|] == p;
    }
  }

  function DigitChar(d: nat): char
    requires d < 10
  {
    '0' + d as char
  }

  /** The value of a run of decimal digits, as Python's `int()` reads it. */
  function DecimalValue(s: string): nat
    requires AllDigits(s)
  {
    if s == [] then 0 else 10 * DecimalValue(s[..|s| - 1]) + (s[|s| - 1] - '0') as nat
  }

  /** `str(n)` for a non-negative integer. */
  function NatToString(n: nat): (r: string)
    ensures |r| > 0 && AllDigits(r)
    ensures |r| > 1 ==> r[0] != '0'
  {
    if n < 10 then [DigitChar(n)] else NatToString(n / 10) + [DigitChar(n % 10)]
  }

  /** `str(i)` for any integer. */
  function IntToString(i: int): (r: string)
    ensures |r| > 0
    ensures i < 0 <==> r[0] == '-'
  {
    if i < 0 then "-" + NatToString(-i) else NatToString(i)
  }

  /** `str(i)` holds only digits and, in front, a minus sign. */
  lemma IntToStringChars(i: int)
    ensures forall k :: 0 <= k < |IntToString(i)| ==> IsDigit(IntToString(i)[k]) || IntToString(i)[k] == '-'
  {
    if i < 0 {
      var d := NatToString(-i);
      forall k | 0 < k < |"-" + d| ensures IsDigit(("-" + d)[k]) {
        assert ("-" + d)[k] == d[k - 1];
      }
    }
  }

  /** Reading back what `NatToString` wrote gives the number again. */
  lemma {:induction false} DecimalValueOfNatToString(n: nat)
    ensures DecimalValue(NatToString(n)) == n
  {
    var r := NatToString(n);
    if n >= 10 {
      DecimalValueOfNatToString(n / 10);
      assert r[..|r| - 1] == NatToString(n / 10);
    }
  }

  /** `sep.join(parts)`. */
  function Join(parts: seq<string>, sep: string): string {
    if parts == [] then "" else if |parts| == 1 then parts[0] else parts[0] + sep + Join(parts[1..], sep)
  }

  /** Index of the first line break at or after `k`, or `|s|` when there is none. */
  function NextBreak(s: string, k: nat): (r: nat)
    requires k <= |s|
    ensures k <= r <= |s|
    ensures forall i :: k <= i < r ==> !IsLineBreak(s[i])
    ensures r < |s| ==> IsLineBreak(s[r])
    decreases |s| - k
  {
    if k == |s| || IsLineBreak(s[k]) then k else NextBreak(s, k + 1)
  }

  /** `s.splitlines()`: breaks at every line-break character, `\r\n` counting as one;
      a trailing break does not start an empty last line. */
  function SplitLines(s: string): (r: seq<string>)
    ensures forall j, i :: 0 <= j < |r| && 0 <= i < |r[j]| ==> !IsLineBreak(r[j][i])
    decreases |s|
  {
    if s == [] then []
    else
      var k := NextBreak(s, 0);
      if k == |s| then [s]
      else
        var next := if s[k] == '\r' && k + 1 < |s| && s[k + 1] == '\n' then k + 2 else k + 1;
        [s[..k]] + SplitLines(s[next..])
  }

  predicate NoLineBreak(s: string) {
    forall i :: 0 <= i < |s| ==> !IsLineBreak(s[i])
  }

  /** A concatenation has no line break exactly when neither piece has one. */
  lemma NoLineBreakConcat(a: string, b: string)
    ensures NoLineBreak(a + b) <==> NoLineBreak(a) && NoLineBreak(b)
  {
    var s := a + b;
    if NoLineBreak(s) {
      forall i | 0 <= i < |a| ensures !IsLineBreak(a[i]) {
        assert a[i] == s[i];
      }
      forall i | 0 <= i < |b| ensures !IsLineBreak(b[i]) {
        assert b[i] == s[|a| + i];
      }
    }
    if NoLineBreak(a) && NoLineBreak(b) {
      forall i | 0 <= i < |s| ensures !IsLineBreak(s[i]) {
        if i >= |a| {
          assert s[i] == b[i - |a|];
        }
      }
    }
  }

  /** Decimal digits are never line breaks. */
  lemma DigitsNoLineBreak(s: string)
    requires AllDigits(s)
    ensures NoLineBreak(s)
  {
  }

  /** Joining lines with `"\n"` and splitting again gives the lines back, provided no
      line holds a line break and the last line is not empty (an empty last line would
      leave a trailing `"\n"`, which `splitlines` drops). */
  lemma {:induction false} SplitLinesOfJoin(lines: seq<string>)
    requires forall j :: 0 <= j < |lines| ==> NoLineBreak(lines[j])
    requires lines != [] ==> lines[|lines| - 1] != ""
    ensures SplitLines(Join(lines, "\n")) == lines
  {
    if |lines| == 1 {
      NoBreakFound(lines[0], 0);
    } else if |lines| > 1 {
      var s := Join(lines, "\n");
      var rest := Join(lines[1..], "\n");
      assert s == lines[0] + "\n" + rest;
      assert s[..|lines[0]|] == lines[0];
      assert NextBreak(s, 0) == |lines[0]| by {
        NextBreakAt(s, 0, |lines[0]|);
      }
      assert s[|lines[0]| + 1..] == rest;
      SplitLinesOfJoin(lines[1..]);
      assert [lines[0]] + lines[1..] == lines;
    }
  }

  /** A line without breaks followed by `"\n"` is split off as the first line. */
  lemma SplitLinesCons(h: string, rest: string)
    requires NoLineBreak(h)
    ensures SplitLines(h + "\n" + rest) == [h] + SplitLines(rest)
  {
    var s := h + "\n" + rest;
    assert s[..|h|] == h;
    forall i | 0 <= i < |h| ensures !IsLineBreak(s[i]) {
      assert s[i] == h[i];
    }
    NextBreakAt(s, 0, |h|);
    assert s[|h| + 1..] == rest;
  }

  /** `NextBreak` stops at the first break. */
  lemma {:induction false} NextBreakAt(s: string, k: nat, b: nat)
    requires k <= b < |s| && IsLineBreak(s[b])
    requires forall i :: k <= i < b ==> !IsLineBreak(s[i])
    ensures NextBreak(s, k) == b
    decreases b - k
  {
    if k < b {
      NextBreakAt(s, k + 1, b);
    }
  }

  /** A line without breaks is scanned to its end. */
  lemma {:induction false} NoBreakFound(s: string, k: nat)
    requires k <= |s|
    ensures NoLineBreak(s) ==> NextBreak(s, k) == |s|
    decreases |s| - k
  {
    if k < |s| {
      NoBreakFound(s, k + 1);
    }
  }
}
