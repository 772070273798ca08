/** Character-level helpers shared by the models: Python's notion of
    whitespace, `str.strip()`, `str.startswith`, and the position of the
    first occurrence of a character (what `str.split(c)[0]` and `c in s`
    look at). */
module Strings {

  /** The characters Python's `str.isspace()` accepts, which is the set
      `str.strip()` with no argument removes. */
  predicate IsSpace(c: char) {
    ('\t' <= c <= '\r') || ('\U{1C}' <= c <= '\U{1F}') || c == ' '
    || c == '\U{85}' || c == '\U{A0}' || c == '\U{1680}'
    || ('\U{2000}' <= c <= '\U{200A}') || c == '\U{2028}' || c == '\U{2029}'
    || c == '\U{202F}' || c == '\U{205F}' || c == '\U{3000}'
  }

  predicate AllSpace(s: string) {
    forall k :: 0 <= k < |s| ==> IsSpace(s[k])
  }

  /** Number of whitespace characters at the front of `s`. */
  function LeadingSpace(s: string): (n: nat)
    ensures n <= |s|
    ensures AllSpace(s[..n])
    ensures n == |s| || !IsSpace(s[n])
  {
    if |s| == 0 || !IsSpace(s[0]) then 0
    else
      var m := LeadingSpace(s[1..]);
      assert s[1..][..m] == s[1..m + 1];
      1 + m
  }

  /** Length of `s` once the whitespace at its end is removed. */
  function TrailingStart(s: string): (n: nat)
    ensures n <= |s|
    ensures AllSpace(s[n..])
    ensures n == 0 || !IsSpace(s[n - 1])
  {
    if |s| == 0 || !IsSpace(s[|s| - 1]) then |s|
    else
      var m := TrailingStart(s[..|s| - 1]);
      assert s[m..] == s[..|s| - 1][m..] + [s[|s| - 1]];
      m
  }

  /** Python `s.strip()`: the part of `s` between its leading and its
      trailing whitespace. */
  function Strip(s: string): (r: string)
    ensures exists i, j :: 0 <= i <= j <= |s| && r == s[i..j] && AllSpace(s[..i]) && AllSpace(s[j..])
    ensures r == [] || (!IsSpace(r[0]) && !IsSpace(r[|r| - 1]))
  {
    var i := LeadingSpace(s);
    var t := s[i..];
    var n := TrailingStart(t);
    assert t[n..] == s[i + n..];
    assert t[..n] == s[i..i + n];
    s[i..i + n]
  }

  /** Whitespace in front of `s` only adds to its leading space. */
  lemma {:induction false} LeadingSpaceOfPrefixed(w: string, s: string)
    requires AllSpace(w)
    ensures LeadingSpace(w + s) == |w| + LeadingSpace(s)
    decreases |w|
  {
    if |w| > 0 {
      assert (w + s)[1..] == w[1..] + s;
      LeadingSpaceOfPrefixed(w[1..], s);
    } else {
      assert w + s == s;
    }
  }

  /** Whitespace after a string ending in a non-space is all trailing. */
  lemma {:induction false} TrailingStartOfSuffixed(s: string, w: string)
    requires AllSpace(w) && |s| > 0 && !IsSpace(s[|s| - 1])
    ensures TrailingStart(s + w) == |s|
    decreases |w|
  {
    if |w| > 0 {
      var u := w[..|w| - 1];
      assert (s + w)[..|s + w| - 1] == s + u;
      TrailingStartOfSuffixed(s, u);
    } else {
      assert s + w == s;
    }
  }

  /** `strip()` removes exactly the padding around a trimmed text. */
  lemma StripPadded(w1: string, s: string, w2: string)
    requires AllSpace(w1) && AllSpace(w2)
    requires |s| > 0 && !IsSpace(s[0]) && !IsSpace(s[|s| - 1])
    ensures Strip(w1 + s + w2) == s
  {
    var x := w1 + s + w2;
    assert x == w1 + (s + w2);
    LeadingSpaceOfPrefixed(w1, s + w2);
    assert LeadingSpace(s + w2) == 0;
    assert x[|w1|..] == s + w2;
    TrailingStartOfSuffixed(s, w2);
    assert (s + w2)[..|s|] == s;
  }

  /** A string with no whitespace at either end is its own `strip()`. */
  lemma StripTrimmed(s: string)
    requires s == [] || (!IsSpace(s[0]) && !IsSpace(s[|s| - 1]))
    ensures Strip(s) == s
  {
    assert s[LeadingSpace(s)..] == s;
  }

  /** Where the first `c` of a concatenation is. */
  lemma {:induction false} IndexOfConcat(a: string, b: string, c: char)
    ensures IndexOf(a + b, c) == if c in a then IndexOf(a, c) else |a| + IndexOf(b, c)
    decreases |a|
  {
    if |a| == 0 {
      assert a + b == b;
    } else if a[0] != c {
      assert (a + b)[1..] == a[1..] + b;
      IndexOfConcat(a[1..], b, c);
      assert c in a <==> c in a[1..];
    }
  }

  /** Python `s.startswith(p)`. */
  predicate StartsWith(s: string, p: string) {
    |p| <= |s| && s[..|p|] == p
  }

  /** Index of the first `c` in `s`, or `|s|` when there is none. */
  function IndexOf(s: string, c: char): (i: nat)
    ensures i <= |s|
    ensures c !in s[..i]
    ensures i < |s| <==> c in s
    ensures i < |s| ==> s[i] == c
  {
    if |s| == 0 then 0
    else if s[0] == c then 0
    else
      var k := IndexOf(s[1..], c);
      assert s[..k + 1] == [s[0]] + s[1..][..k];
      k + 1
  }
}

/** The optional value `sanitize_path` returns (`Optional[str]`). */
module Wrappers {
  datatype Option<+T> = None | Some(value: T)
}
