/** The few Python `str` operations the script relies on, as functions over
    strings of Unicode scalar values: `needle in text`, the second part of
    `text.split(needle)`, `strip()` and `splitlines()`. */
module Text {
  import opened Optional

  /** The characters for which Python's `str.isspace()` is true; `strip()`
      with no argument removes exactly these. */
  predicate IsSpace(c: char) {
    ('\t' <= c <= '\r') || ('\U{1C}' <= c <= '\U{1F}') || c == ' '
    || c == '\U{85}' || c == '\U{A0}' || c == '\U{1680}'
    || ('\U{2000}' <= c <= '\U{200A}') || c == '\U{2028}' || c == '\U{2029}'
    || c == '\U{202F}' || c == '\U{205F}' || c == '\U{3000}'
  }

  /** The line boundaries recognised by Python's `str.splitlines()`. */
  predicate IsLineBreak(c: char) {
    ('\n' <= c <= '\r') || ('\U{1C}' <= c <= '\U{1E}')
    || c == '\U{85}' || c == '\U{2028}' || c == '\U{2029}'
  }

  // ---------------------------------------------------------------------
  // Substring search: `needle in text` and `text.find(needle, start)`

  predicate OccursAt(s: string, needle: string, i: nat) {
    i + |needle| <= |s| && s[i..i + |needle|] == needle
  }

  /** Python's `needle in s`. */
  predicate Contains(s: string, needle: string) {
    exists i: nat | i <= |s| :: OccursAt(s, needle, i)
  }

  /** The leftmost occurrence of `needle` in `s` at or after `from`. */
  function FindFrom(s: string, needle: string, from: nat): (r: Option<nat>)
    requires from <= |s|
    ensures r.Some? ==> from <= r.value <= |s| && OccursAt(s, needle, r.value)
    ensures r.Some? ==> forall j: nat :: from <= j < r.value ==> !OccursAt(s, needle, j)
    ensures r.None? ==> forall j: nat :: from <= j ==> !OccursAt(s, needle, j)
    decreases |s| - from
  {
    if OccursAt(s, needle, from) then Some(from)
    else if from == |s| then None
    else FindFrom(s, needle, from + 1)
  }

  lemma FindFromFindsContained(s: string, needle: string)
    ensures FindFrom(s, needle, 0).Some? <==> Contains(s, needle)
  {
    var r := FindFrom(s, needle, 0);
    if r.Some? {
      assert OccursAt(s, needle, r.value);
    }
  }

  /** `s.split(needle)[1]` for a non-empty `needle` that occurs in `s`: the
      text between the first occurrence and the next non-overlapping one,
      or the end of `s` when there is no second occurrence. */
  function SecondPart(s: string, needle: string): (p: string)
    requires needle != [] && Contains(s, needle)
    ensures var i := FindFrom(s, needle, 0).value;
      i + |needle| + |p| <= |s| && s[i..i + |needle| + |p|] == needle + p
      && (i + |needle| + |p| == |s| || OccursAt(s, needle, i + |needle| + |p|))
      && forall j: nat :: i + |needle| <= j < i + |needle| + |p| ==> !OccursAt(s, needle, j)
    ensures !Contains(p, needle)
  {
    FindFromFindsContained(s, needle);
    var i := FindFrom(s, needle, 0).value;
    var end := match FindFrom(s, needle, i + |needle|)
      case Some(j) => j
      case None => |s|;
    SegmentFacts(s, needle, i, end);
    s[i + |needle|..end]
  }

  lemma SegmentFacts(s: string, needle: string, i: nat, end: nat)
    requires needle != [] && OccursAt(s, needle, i)
    requires i + |needle| <= end <= |s|
    requires forall j: nat :: i + |needle| <= j < end ==> !OccursAt(s, needle, j)
    ensures s[i..end] == needle + s[i + |needle|..end]
    ensures !Contains(s[i + |needle|..end], needle)
  {
    var start := i + |needle|;
    var p := s[start..end];
    assert s[i..end] == s[i..start] + p;
    if Contains(p, needle) {
      var k: nat :| k <= |p| && OccursAt(p, needle, k);
      assert k + |needle| <= |p|;
      forall t | 0 <= t < |needle|
        ensures s[start + k + t] == needle[t]
      {
        assert p[k..k + |needle|][t] == p[k + t] == s[start + k + t];
      }
      assert s[start + k..start + k + |needle|] == needle;
      assert OccursAt(s, needle, start + k) && start + k < end;
    }
  }

  // ---------------------------------------------------------------------
  // `strip()`

  /** The number of leading whitespace characters of `s`. */
  function LeadingSpaces(s: string): (n: nat)
    ensures n <= |s|
    ensures forall j :: 0 <= j < n ==> IsSpace(s[j])
    ensures n < |s| ==> !IsSpace(s[n])
  {
    if |s| > 0 && IsSpace(s[0]) then 1 + LeadingSpaces(s[1..]) else 0
  }

  /** The length of `s` once its trailing whitespace is dropped. */
  function WithoutTrailingSpaces(s: string): (n: nat)
    ensures n <= |s|
    ensures forall j :: n <= j < |s| ==> IsSpace(s[j])
    ensures n > 0 ==> !IsSpace(s[n - 1])
  {
    if |s| > 0 && IsSpace(s[|s| - 1]) then WithoutTrailingSpaces(s[..|s| - 1]) else |s|
  }

  /** Python's `s.strip()`: `s` without its leading and trailing whitespace. */
  function Strip(s: string): (r: string)
    ensures |r| == 0 || (!IsSpace(r[0]) && !IsSpace(r[|r| - 1]))
    ensures var a := LeadingSpaces(s);
      a + |r| <= |s| && r == s[a..a + |r|]
      && forall j :: a + |r| <= j < |s| ==> IsSpace(s[j])
  {
    var a := LeadingSpaces(s);
    var b := WithoutTrailingSpaces(s);
    if b <= a then [] else s[a..b]
  }

  /** What `strip()` makes of a text that has no leading whitespace: the
      same text with its trailing whitespace dropped, hence a prefix. */
  lemma {:induction false} StripOfUnindented(s: string)
    requires |s| == 0 || !IsSpace(s[0])
    ensures Strip(s) == s[..|Strip(s)|]
    ensures forall j :: |Strip(s)| <= j < |s| ==> IsSpace(s[j])
  {
    assert LeadingSpaces(s) == 0;
  }

  // ---------------------------------------------------------------------
  // `splitlines()`

  /** The first line boundary at or after `from`, or `|s|` when there is none. */
  function LineEnd(s: string, from: nat): (k: nat)
    requires from <= |s|
    ensures from <= k <= |s|
    ensures k < |s| ==> IsLineBreak(s[k])
    ensures forall j :: from <= j < k ==> !IsLineBreak(s[j])
    decreases |s| - from
  {
    if from == |s| || IsLineBreak(s[from]) then from else LineEnd(s, from + 1)
  }

  /** How many characters the boundary at `k` takes: two for "\r\n", else one. */
  function BreakWidth(s: string, k: nat): nat
    requires k < |s|
  {
    if s[k] == '\r' && k + 1 < |s| && s[k + 1] == '\n' then 2 else 1
  }

  /** Python's `s.splitlines()`: the lines of `s` without their boundaries;
      a final boundary does not start an extra empty line. */
  function SplitLines(s: string): (lines: seq<string>)
    decreases |s|
  {
    if |s| == 0 then []
    else
      var k := LineEnd(s, 0);
      if k == |s| then [s]
      else [s[..k]] + SplitLines(s[k + BreakWidth(s, k)..])
  }

  /** Whether `s` leaves an empty line behind when "\r\n" is appended to it. */
  predicate EndsLine(s: string) {
    |s| == 0 || IsLineBreak(s[|s| - 1])
  }

  /** `LineEnd` is determined by what it promises. */
  lemma LineEndIs(s: string, from: nat, k: nat)
    requires from <= k <= |s|
    requires k < |s| ==> IsLineBreak(s[k])
    requires forall j :: from <= j < k ==> !IsLineBreak(s[j])
    ensures LineEnd(s, from) == k
  {
  }

  /** Where the first line of `a + "\r\n" + b` ends. */
  lemma FirstLineEndJoined(a: string, b: string)
    ensures LineEnd(a + "\r\n" + b, 0) == LineEnd(a, 0)
  {
    var s := a + "\r\n" + b;
    var k := LineEnd(a, 0);
    assert k < |s| && IsLineBreak(s[k]) by {
      if k == |a| { assert s[|a|] == '\r'; } else { assert s[k] == a[k]; }
    }
    forall j | 0 <= j < k
      ensures !IsLineBreak(s[j])
    {
      assert s[j] == a[j];
    }
    LineEndIs(s, 0, k);
  }

  /** Splitting two texts glued by "\r\n" gives the lines of each, with one
      empty line between them when the first is empty or already ends on a
      line boundary. */
  lemma {:induction false} SplitLinesJoined(a: string, b: string)
    ensures SplitLines(a + "\r\n" + b)
      == SplitLines(a) + (if EndsLine(a) then [""] else []) + SplitLines(b)
    decreases |a|, 1
  {
    var k := LineEnd(a, 0);
    FirstLineEndJoined(a, b);
    if k == |a| {
      SplitLinesJoinedOneLine(a, b);
    } else {
      SplitLinesJoinedMore(a, b);
    }
  }

  /** The inductive step of `SplitLinesJoined`: `a` holds a line boundary. */
  lemma {:induction false} SplitLinesJoinedMore(a: string, b: string)
    requires LineEnd(a, 0) < |a| && LineEnd(a + "\r\n" + b, 0) == LineEnd(a, 0)
    ensures SplitLines(a + "\r\n" + b)
      == SplitLines(a) + (if EndsLine(a) then [""] else []) + SplitLines(b)
    decreases |a|, 0
  {
    var k := LineEnd(a, 0);
    {
      var rest := a[k + BreakWidth(a, k)..];
      var extra: seq<string> := if EndsLine(a) then [""] else [];
      SplitLinesJoinedStep(a, b);
      SplitLinesJoined(rest, b);
      EndsLineOfRest(a, k);
      PrependLine(a[..k], SplitLines(rest), extra, SplitLines(b));
    }
  }

  lemma PrependLine(line: string, lines: seq<string>, extra: seq<string>, more: seq<string>)
    ensures [line] + (lines + extra + more) == ([line] + lines) + extra + more
  {
  }

  lemma EndsLineOfRest(a: string, k: nat)
    requires k < |a| && IsLineBreak(a[k])
    ensures EndsLine(a[k + BreakWidth(a, k)..]) == EndsLine(a)
  {
    var rest := a[k + BreakWidth(a, k)..];
    if |rest| > 0 {
      assert rest[|rest| - 1] == a[|a| - 1];
    }
  }

  lemma SplitLinesJoinedOneLine(a: string, b: string)
    requires LineEnd(a, 0) == |a| && LineEnd(a + "\r\n" + b, 0) == |a|
    ensures SplitLines(a + "\r\n" + b)
      == SplitLines(a) + (if EndsLine(a) then [""] else []) + SplitLines(b)
  {
    var s := a + "\r\n" + b;
    assert s[|a|] == '\r' && s[|a| + 1] == '\n';
    assert BreakWidth(s, |a|) == 2;
    assert s[|a| + 2..] == b;
    assert s[..|a|] == a;
  }

  lemma SplitLinesJoinedStep(a: string, b: string)
    requires LineEnd(a, 0) < |a| && LineEnd(a + "\r\n" + b, 0) == LineEnd(a, 0)
    ensures var k := LineEnd(a, 0); var rest := a[k + BreakWidth(a, k)..];
      SplitLines(a + "\r\n" + b) == [a[..k]] + SplitLines(rest + "\r\n" + b)
      && SplitLines(a) == [a[..k]] + SplitLines(rest)
  {
    var s := a + "\r\n" + b;
    var k := LineEnd(a, 0);
    var w := BreakWidth(a, k);
    assert s[k] == a[k];
    assert BreakWidth(s, k) == w by {
      if k + 1 < |a| { assert s[k + 1] == a[k + 1]; } else { assert s[k + 1] == '\r'; }
    }
    assert s[k + w..] == a[k + w..] + "\r\n" + b;
    assert s[..k] == a[..k];
  }
}
