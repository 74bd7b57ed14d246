/**
 * The string operations the application relies on, written out with Python's
 * meaning: `str.isspace`, `str.strip`, `in` on strings, `str.replace` of a single
 * character, slicing for previews, `str(int)` and `os.path.basename`.
 */
module Text {

  function Min(a: int, b: int): int { if a <= b then a else b }

  /** Python's `str.isspace()` for one character: the whitespace `str.strip()` removes. */
  predicate IsSpace(c: char) {
    || c == ' '
    || ('\t' <= c <= '\r')
    || ('\U{1C}' <= c <= '\U{1F}')
    || c == '\U{85}' || c == '\U{A0}' || c == '\U{1680}'
    || ('\U{2000}' <= c <= '\U{200A}')
    || c == '\U{2028}' || c == '\U{2029}' || c == '\U{202F}' || c == '\U{205F}' || c == '\U{3000}'
  }

  predicate AllSpace(s: string) {
    forall i :: 0 <= i < |s| ==> IsSpace(s[i])
  }

  /** How many whitespace characters `s` starts with. */
  function LeadingSpace(s: string): (k: nat)
    ensures k <= |s|
    ensures AllSpace(s[..k])
    ensures k < |s| ==> !IsSpace(s[k])
  {
    if |s| == 0 || !IsSpace(s[0]) then 0
    else
      var k' := LeadingSpace(s[1..]);
      assert s[..1 + k'] == [s[0]] + s[1..][..k'];
      1 + k'
  }

  /** The length of `s` once its trailing whitespace is cut off. */
  function TrailingStart(s: string): (j: nat)
    ensures j <= |s|
    ensures AllSpace(s[j..])
    ensures j > 0 ==> !IsSpace(s[j - 1])
  {
    if |s| == 0 || !IsSpace(s[|s| - 1]) then |s|
    else
      var j := TrailingStart(s[..|s| - 1]);
      assert s[j..] == s[..|s| - 1][j..] + [s[|s| - 1]];
      j
  }

  /**
   * Python's `str.strip()`: `s` with its whitespace prefix and whitespace suffix
   * removed; what is left neither starts nor ends with whitespace.
   */
  function Strip(s: string): (r: string)
    ensures LeadingSpace(s) + |r| <= |s|
    ensures r == s[LeadingSpace(s)..LeadingSpace(s) + |r|]
    ensures AllSpace(s[LeadingSpace(s) + |r|..])
    ensures r != [] ==> !IsSpace(r[0]) && !IsSpace(r[|r| - 1])
    ensures r == [] <==> AllSpace(s)
  {
    var k := LeadingSpace(s);
    var t := s[k..];
    var r := t[..TrailingStart(t)];
    assert AllSpace(s) ==> k == |s|;
    assert k < |s| ==> t != [] && !IsSpace(t[0]) && TrailingStart(t) > 0;
    assert s[k + |r|..] == t[TrailingStart(t)..];
    r
  }

  /** Stripping twice is stripping once. */
  lemma {:induction false} StripIdempotent(s: string)
    ensures Strip(Strip(s)) == Strip(s)
  {
    var r := Strip(s);
    if r != [] {
      assert LeadingSpace(r) == 0;
      assert r[0..] == r;
      assert TrailingStart(r) == |r|;
    }
  }

  /** `p` is a prefix of `s` (Python's `s.startswith(p)`). */
  predicate StartsWith(s: string, p: string) {
    |p| <= |s| && s[..|p|] == p
  }

  /** `needle in s` for Python strings: `needle` occurs in `s` as a contiguous run. */
  predicate Contains(s: string, needle: string)
    decreases |s|
  {
    StartsWith(s, needle) || (|s| > 0 && Contains(s[1..], needle))
  }

  /** Whatever surrounds it, a string contains itself. */
  lemma {:induction false} ContainsInfix(a: string, needle: string, b: string)
    ensures Contains(a + needle + b, needle)
    decreases |a|
  {
    var s := a + needle + b;
    if a == [] {
      assert s[..|needle|] == needle;
    } else {
      ContainsInfix(a[1..], needle, b);
      assert s[1..] == a[1..] + needle + b;
    }
  }

  /** A string found in `s` is a run of `s`: `s` splits around it. */
  lemma {:induction false} ContainsSplits(s: string, needle: string)
    requires Contains(s, needle)
    ensures exists i :: 0 <= i <= |s| - |needle| && s[i..][..|needle|] == needle
    decreases |s|
  {
    if StartsWith(s, needle) {
      assert s[0..][..|needle|] == needle;
    } else {
      ContainsSplits(s[1..], needle);
      var i :| 0 <= i <= |s| - 1 - |needle| && s[1..][i..][..|needle|] == needle;
      assert s[1..][i..] == s[i + 1..];
    }
  }

  /** Python's `s.replace(a, b)` for single characters `a` and `b`. */
  function ReplaceChar(s: string, a: char, b: char): (r: string)
    ensures |r| == |s|
    ensures forall i :: 0 <= i < |s| ==> r[i] == (if s[i] == a then b else s[i])
  {
    if s == [] then [] else [if s[0] == a then b else s[0]] + ReplaceChar(s[1..], a, b)
  }

  /** A line break shown as a space, as the previews do. */
  function Flatten(c: char): char {
    if c == '\n' || c == '\r' then ' ' else c
  }

  /** `s.replace("\n", " ").replace("\r", " ")`: every line break shown as a space. */
  function FlatLine(s: string): (r: string)
    ensures |r| == |s|
    ensures forall i :: 0 <= i < |s| ==> r[i] == Flatten(s[i])
  {
    ReplaceChar(ReplaceChar(s, '\n', ' '), '\r', ' ')
  }

  /**
   * `content[:n].replace("\n", " ").replace("\r", " ")`, followed by `"..."` when
   * `content` is longer than `n` characters.
   */
  function Preview(content: string, n: nat): (p: string)
    ensures |p| == if |content| > n then n + 3 else |content|
    ensures forall i :: 0 <= i < Min(n, |content|) ==> p[i] == Flatten(content[i])
    ensures |content| > n ==> p[n..] == "..."
  {
    FlatLine(content[..Min(n, |content|)]) + if |content| > n then "..." else ""
  }

  /** `s` holds no line break. */
  predicate OneLine(s: string) {
    forall i :: 0 <= i < |s| ==> s[i] != '\n' && s[i] != '\r'
  }

  /** Two lines joined are one line. */
  lemma OneLineConcat(a: string, b: string)
    requires OneLine(a) && OneLine(b)
    ensures OneLine(a + b)
  {
    forall i | 0 <= i < |a + b| ensures (a + b)[i] != '\n' && (a + b)[i] != '\r' {
      if i >= |a| {
        assert (a + b)[i] == b[i - |a|];
      }
    }
  }

  /** A preview never holds a line break. */
  lemma PreviewIsOneLine(content: string, n: nat)
    ensures OneLine(Preview(content, n))
  {
    var head := FlatLine(content[..Min(n, |content|)]);
    assert OneLine(head);
    OneLineConcat(head, if |content| > n then "..." else "");
  }

  /** A short one-line string is its own preview. */
  lemma {:induction false} PreviewOfShortLine(content: string, n: nat)
    requires |content| <= n
    requires OneLine(content)
    ensures Preview(content, n) == content
  {
    var p := Preview(content, n);
    assert |p| == |content|;
    forall i | 0 <= i < |content| ensures p[i] == content[i] {
      assert p[i] == Flatten(content[i]);
    }
  }

  /** The decimal digit for `d`. */
  function DigitChar(d: nat): (c: char)
    requires d < 10
    ensures '0' <= c <= '9'
  {
    (48 + d) as char
  }

  predicate AllDigits(s: string) {
    forall i :: 0 <= i < |s| ==> '0' <= s[i] <= '9'
  }

  /** Python's `str(n)` for a non-negative integer. */
  function NatToString(n: nat): (s: string)
    ensures |s| >= 1 && AllDigits(s)
    ensures s[0] == '0' ==> n == 0
  {
    if n < 10 then [DigitChar(n)]
    else
      var prefix := NatToString(n / 10);
      prefix + [DigitChar(n % 10)]
  }

  /** The number a string of decimal digits denotes (Python's `int(s)`). */
  function DecimalValue(s: string): nat
    requires AllDigits(s)
  {
    if s == [] then 0 else DecimalValue(s[..|s| - 1]) * 10 + (s[|s| - 1] as int - 48)
  }

  /** Reading back the digits of `n` gives `n`. */
  lemma {:induction false} DecimalRoundTrip(n: nat)
    ensures DecimalValue(NatToString(n)) == n
  {
    if n >= 10 {
      DecimalRoundTrip(n / 10);
      var s := NatToString(n);
      assert s[..|s| - 1] == NatToString(n / 10);
    }
  }

  /** `posixpath.basename(p)`: the part of `p` after its last `/`. */
  function Basename(p: string): (b: string)
    ensures |b| <= |p| && p[|p| - |b|..] == b
    ensures forall i :: 0 <= i < |b| ==> b[i] != '/'
    ensures |b| < |p| ==> p[|p| - |b| - 1] == '/'
  {
    if p == [] || p[|p| - 1] == '/' then []
    else Basename(p[..|p| - 1]) + [p[|p| - 1]]
  }
}
