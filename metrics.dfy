/** The bridge's in-memory metrics: path redaction for log lines, the
    call counters and latency list, the 95th-percentile latency, the
    summary, and the success rule of the timing wrapper. */
module Metrics {
  import opened Strings

  // ---------------------------------------------------------------------
  // redact_path:  (/[a-zA-Z0-9._-]+)+ | ([A-Z]:\\[a-zA-Z0-9._\- \\]+)

  const Redacted: string := "[REDACTED_PATH]"

  predicate IsUpper(c: char) {
    'A' <= c <= 'Z'
  }

  /** The class `[a-zA-Z0-9._-]` of a POSIX path segment. */
  predicate IsSegmentChar(c: char) {
    'a' <= c <= 'z' || 'A' <= c <= 'Z' || '0' <= c <= '9' || c == '.' || c == '_' || c == '-'
  }

  /** The class `[a-zA-Z0-9._\- \\]` after a drive prefix. */
  predicate IsDriveChar(c: char) {
    IsSegmentChar(c) || c == ' ' || c == '\\'
  }

  /** Length of the run of segment characters at the front of `s`. */
  function SegmentRun(s: string): (n: nat)
    ensures n <= |s|
    ensures forall k :: 0 <= k < n ==> IsSegmentChar(s[k])
    ensures n == |s| || !IsSegmentChar(s[n])
  {
    if |s| == 0 || !IsSegmentChar(s[0]) then 0 else 1 + SegmentRun(s[1..])
  }

  /** Length of the run of drive-path characters at the front of `s`. */
  function DriveRun(s: string): (n: nat)
    ensures n <= |s|
    ensures forall k :: 0 <= k < n ==> IsDriveChar(s[k])
    ensures n == |s| || !IsDriveChar(s[n])
  {
    if |s| == 0 || !IsDriveChar(s[0]) then 0 else 1 + DriveRun(s[1..])
  }

  /** Where a match of the first alternative can start: a slash followed by
      a segment character. */
  predicate PosixStart(s: string) {
    |s| >= 2 && s[0] == '/' && IsSegmentChar(s[1])
  }

  /** Where a match of the second alternative can start: an upper-case
      drive letter, `:`, a backslash and a drive-path character. */
  predicate DriveStart(s: string) {
    |s| >= 4 && IsUpper(s[0]) && s[1] == ':' && s[2] == '\\' && IsDriveChar(s[3])
  }

  /** `s[..n]` is a whole match of `(/[a-zA-Z0-9._-]+)+` that cannot be
      extended: every slash in it is followed by a segment character inside
      it, every other character is a segment character, and what follows is
      neither a segment character nor the start of another group. */
  predicate PosixExtent(s: string, n: nat) {
    0 < n <= |s| && s[0] == '/'
    && (forall k :: 0 <= k < n && s[k] == '/' ==> k + 1 < n && IsSegmentChar(s[k + 1]))
    && (forall k :: 0 <= k < n && s[k] != '/' ==> IsSegmentChar(s[k]))
    && (n == |s| || !IsSegmentChar(s[n]))
    && !PosixStart(s[n..])
  }

  /** `s[..n]` is a whole match of `[A-Z]:\\[a-zA-Z0-9._\- \\]+` that cannot
      be extended: the drive prefix, then drive-path characters up to the
      first character that is not one. */
  predicate DriveExtent(s: string, n: nat) {
    DriveStart(s) && 4 <= n <= |s|
    && (forall k :: 3 <= k < n ==> IsDriveChar(s[k]))
    && (n == |s| || !IsDriveChar(s[n]))
  }

  /** Length of the greedy match of `(/[a-zA-Z0-9._-]+)+` at the front of
      `s`: as many slash-and-segment groups as follow one another. */
  function PosixMatch(s: string): (n: nat)
    requires PosixStart(s)
    ensures PosixExtent(s, n)
    decreases |s|
  {
    var k := 1 + SegmentRun(s[1..]);
    if PosixStart(s[k..]) then
      var m := PosixMatch(s[k..]);
      PosixExtentShift(s, k, m);
      k + m
    else
      FirstGroupExtent(s, k);
      k
  }

  /** A first group `s[..k]` not followed by another is a whole match. */
  lemma FirstGroupExtent(s: string, k: nat)
    requires PosixStart(s) && k == 1 + SegmentRun(s[1..])
    requires !PosixStart(s[k..])
    ensures PosixExtent(s, k)
  {
    forall i | 0 < i < k ensures s[i] == s[1..][i - 1] && s[i] != '/' {
    }
  }

  /** A first group `s[..k]` followed by a whole match of the rest is a
      whole match. */
  lemma PosixExtentShift(s: string, k: nat, m: nat)
    requires PosixStart(s) && k == 1 + SegmentRun(s[1..])
    requires k <= |s| && PosixExtent(s[k..], m)
    ensures PosixExtent(s, k + m)
  {
    var t := s[k..];
    assert s[k + m..] == t[m..];
    forall i | 0 < i < k ensures IsSegmentChar(s[i]) && s[i] != '/' {
      assert s[i] == s[1..][i - 1];
    }
    forall i | 0 <= i < k + m && s[i] == '/' ensures i + 1 < k + m && IsSegmentChar(s[i + 1]) {
      if i >= k {
        assert s[i] == t[i - k] && s[i + 1] == t[i + 1 - k];
      }
    }
    forall i | 0 <= i < k + m && s[i] != '/' ensures IsSegmentChar(s[i]) {
      if i >= k {
        assert s[i] == t[i - k];
      }
    }
    if k + m < |s| {
      assert s[k + m] == t[m];
    }
  }

  /** The extent of a match is determined by where it starts: two whole
      matches of the first alternative have the same length. */
  lemma PosixExtentUnique(s: string, m: nat, n: nat)
    requires PosixExtent(s, m) && PosixExtent(s, n)
    ensures m == n
  {
    PosixExtentMaximal(s, m, n);
    PosixExtentMaximal(s, n, m);
  }

  /** No whole match of the first alternative is longer than another:
      the character right after the shorter one would have to be a
      segment character or the slash of another group. */
  lemma PosixExtentMaximal(s: string, m: nat, n: nat)
    requires PosixExtent(s, m) && PosixExtent(s, n)
    ensures n <= m
  {
  }

  /** The same holds for the second alternative. */
  lemma DriveExtentUnique(s: string, m: nat, n: nat)
    requires DriveExtent(s, m) && DriveExtent(s, n)
    ensures m == n
  {
    DriveExtentMaximal(s, m, n);
    DriveExtentMaximal(s, n, m);
  }

  /** No whole match of the drive alternative is longer than another: the
      character right after the shorter one is not a drive-path character. */
  lemma DriveExtentMaximal(s: string, m: nat, n: nat)
    requires DriveExtent(s, m) && DriveExtent(s, n)
    ensures n <= m
  {
  }

  /** Length of the match at the front of `s` (0 when there is none): the
      first alternative is tried first, and each is taken as far as it
      goes. */
  function MatchAt(s: string): (n: nat)
    ensures n <= |s|
    ensures n > 0 <==> PosixStart(s) || DriveStart(s)
    ensures PosixStart(s) ==> PosixExtent(s, n)
    ensures !PosixStart(s) && DriveStart(s) ==> DriveExtent(s, n)
  {
    if PosixStart(s) then PosixMatch(s)
    else if DriveStart(s) then
      var d := DriveRun(s[3..]);
      assert forall k :: 3 <= k < 3 + d ==> s[k] == s[3..][k - 3];
      3 + d
    else 0
  }

  /** The scan of `re.sub(path_pattern, "[REDACTED_PATH]", text)`: from
      the left, each match is replaced and scanning resumes after it. */
  function Substitute(text: string): string
    decreases |text|
  {
    if |text| == 0 then ""
    else
      var n := MatchAt(text);
      if n > 0 then Redacted + Substitute(text[n..]) else [text[0]] + Substitute(text[1..])
  }

  /** No match starts anywhere in `s`. */
  predicate Clean(s: string) {
    forall i :: 0 <= i <= |s| ==> !PosixStart(s[i..]) && !DriveStart(s[i..])
  }

  /** Text in which no match starts comes out of the scan unchanged. */
  lemma {:induction false} CleanUnchanged(s: string)
    requires Clean(s)
    ensures Substitute(s) == s
    decreases |s|
  {
    if |s| > 0 {
      assert !PosixStart(s[0..]) && !DriveStart(s[0..]);
      assert s[0..] == s;
      assert Clean(s[1..]) by {
        forall i | 0 <= i <= |s[1..]| ensures !PosixStart(s[1..][i..]) && !DriveStart(s[1..][i..]) {
          assert s[1..][i..] == s[i + 1..];
        }
      }
      CleanUnchanged(s[1..]);
    }
  }

  /** In particular, text with no slash and no `X:\` is left alone. */
  lemma NoPathUnchanged(s: string)
    requires forall i :: 0 <= i < |s| ==> s[i] != '/'
    requires forall i :: 0 <= i < |s| - 2 ==> !(IsUpper(s[i]) && s[i + 1] == ':' && s[i + 2] == '\\')
    ensures Redact(s) == s
  {
    forall i | 0 <= i <= |s| ensures !PosixStart(s[i..]) && !DriveStart(s[i..]) {
      if i < |s| {
        assert s[i..][0] == s[i];
      }
      if |s[i..]| >= 4 {
        assert s[i..][1] == s[i + 1] && s[i..][2] == s[i + 2];
      }
    }
  }

  /** The first character of a redacted text, and what follows it. */
  lemma RedactHead(s: string)
    requires |s| > 0
    ensures |Substitute(s)| > 0
    ensures MatchAt(s) > 0 ==> Substitute(s) == Redacted + Substitute(s[MatchAt(s)..])
    ensures MatchAt(s) == 0 ==> Substitute(s)[0] == s[0] && Substitute(s)[1..] == Substitute(s[1..])
  {
    if MatchAt(s) == 0 {
      assert Substitute(s) == [s[0]] + Substitute(s[1..]);
    }
  }

  /** Every character of the replacement text is neither a slash nor
      followed by a colon, so no match starts inside it. */
  lemma ReplacementClean(o: string, i: nat)
    requires Redacted <= o && i < |Redacted|
    ensures !PosixStart(o[i..]) && !DriveStart(o[i..])
  {
    assert o[i..][0] == Redacted[i];
    if i + 1 < |Redacted| {
      assert o[i..][1] == Redacted[i + 1];
    }
  }

  /** The first character of a redacted text: the replacement's `[` after
      a match, the original character otherwise. */
  lemma HeadChar(s: string)
    requires |s| > 0
    ensures |Substitute(s)| > 0
    ensures Substitute(s)[0] == if PosixStart(s) || DriveStart(s) then '[' else s[0]
    ensures !PosixStart(s) && !DriveStart(s) ==> Substitute(s)[1..] == Substitute(s[1..])
  {
    RedactHead(s);
  }

  /** The second character of a redacted text whose first one was kept. */
  lemma SecondChar(s: string)
    requires |s| > 0 && !PosixStart(s) && !DriveStart(s)
    ensures |Substitute(s)| > 1 ==> |s| > 1 && Substitute(s)[1] == Substitute(s[1..])[0]
    ensures |Substitute(s)| > 1 ==> Substitute(s)[1] == '[' || Substitute(s)[1] == s[1]
  {
    HeadChar(s);
    if |s| > 1 {
      HeadChar(s[1..]);
    } else {
      assert s[1..] == [];
    }
  }

  /** A kept slash is not followed by a segment character after
      redaction either. */
  lemma KeptPosixClean(s: string)
    requires |s| > 0 && !PosixStart(s) && !DriveStart(s)
    ensures !PosixStart(Substitute(s))
  {
    HeadChar(s);
    SecondChar(s);
  }

  /** `:`, a backslash and a drive-path character: what must follow the
      drive letter. */
  predicate ColonDrive(t: string) {
    |t| >= 3 && t[0] == ':' && t[1] == '\\' && IsDriveChar(t[2])
  }

  /** A backslash and a drive-path character. */
  predicate BackslashDrive(t: string) {
    |t| >= 2 && t[0] == '\\' && IsDriveChar(t[1])
  }

  lemma DriveStartTail(s: string)
    requires |s| > 0
    ensures DriveStart(s) <==> IsUpper(s[0]) && ColonDrive(s[1..])
  {
  }

  lemma ColonDriveTail(t: string)
    requires |t| > 0
    ensures ColonDrive(t) <==> t[0] == ':' && BackslashDrive(t[1..])
  {
  }

  lemma BackslashDriveTail(t: string)
    requires |t| > 0
    ensures BackslashDrive(t) <==> t[0] == '\\' && |t| >= 2 && IsDriveChar(t[1..][0])
  {
  }

  /** Drive-path characters at the front of a redacted text were there
      before: the replacement starts with `[`, which is not one. */
  lemma DriveCharKept(t: string)
    requires |t| == 0 || !IsDriveChar(t[0])
    ensures |Substitute(t)| == 0 || !IsDriveChar(Substitute(t)[0])
  {
    if |t| > 0 {
      HeadChar(t);
    }
  }

  /** The same for a backslash followed by a drive-path character. */
  lemma BackslashKept(t: string)
    requires !BackslashDrive(t)
    ensures !BackslashDrive(Substitute(t))
  {
    if |t| > 0 {
      HeadChar(t);
      var o := Substitute(t);
      BackslashDriveTail(t);
      BackslashDriveTail(o);
      if o[0] == '\\' {
        DriveCharKept(t[1..]);
      }
    }
  }

  /** The same for `:` and a backslash followed by a drive-path character. */
  lemma ColonKept(t: string)
    requires !ColonDrive(t)
    ensures !ColonDrive(Substitute(t))
  {
    if |t| > 0 {
      HeadChar(t);
      var o := Substitute(t);
      ColonDriveTail(t);
      ColonDriveTail(o);
      if o[0] == ':' {
        BackslashKept(t[1..]);
      }
    }
  }

  /** A kept upper-case letter does not start a drive match after
      redaction either. */
  lemma KeptDriveClean(s: string)
    requires |s| > 0 && !PosixStart(s) && !DriveStart(s)
    ensures !DriveStart(Substitute(s))
  {
    HeadChar(s);
    DriveStartTail(s);
    DriveStartTail(Substitute(s));
    if IsUpper(s[0]) {
      ColonKept(s[1..]);
    }
  }

  /** A text that is one whole path becomes the replacement alone. */
  lemma WholePathRedacted(s: string)
    requires |s| > 0 && MatchAt(s) == |s|
    ensures Redact(s) == Redacted
  {
    RedactHead(s);
    assert s[|s|..] == [];
    assert Redacted + "" == Redacted;
  }

  /** After the scan no match is left anywhere in the text. */
  lemma {:induction false} RedactedIsClean(s: string)
    ensures Clean(Substitute(s))
    decreases |s|
  {
    if |s| > 0 {
      var o := Substitute(s);
      var n := MatchAt(s);
      RedactHead(s);
      if n > 0 {
        var t := Substitute(s[n..]);
        RedactedIsClean(s[n..]);
        forall i | 0 <= i <= |o| ensures !PosixStart(o[i..]) && !DriveStart(o[i..]) {
          if i < |Redacted| {
            ReplacementClean(o, i);
          } else {
            assert o[i..] == t[i - |Redacted|..];
          }
        }
      } else {
        var t := Substitute(s[1..]);
        RedactedIsClean(s[1..]);
        forall i | 0 <= i <= |o| ensures !PosixStart(o[i..]) && !DriveStart(o[i..]) {
          if i == 0 {
            KeptPosixClean(s);
            KeptDriveClean(s);
            assert o[0..] == o;
          } else {
            assert o[i..] == t[i - 1..];
          }
        }
      }
    }
  }

  /** `redact_path(text)`: no path is left in the result, and a text
      without one comes back unchanged. */
  function Redact(text: string): (r: string)
    ensures Clean(r)
    ensures Clean(text) ==> r == text
  {
    RedactedIsClean(text);
    assert Clean(text) ==> Substitute(text) == text by {
      if Clean(text) {
        CleanUnchanged(text);
      }
    }
    Substitute(text)
  }

  /** No match starts at any position of `s` before `i`. */
  predicate NoMatchBefore(s: string, i: nat) {
    i <= |s| && forall k :: 0 <= k < i ==> !PosixStart(s[k..]) && !DriveStart(s[k..])
  }

  /** The scan keeps, character for character, the text before the first
      position where a match starts. */
  lemma {:induction false} SubstituteKeeps(s: string, i: nat)
    requires NoMatchBefore(s, i)
    ensures Substitute(s) == s[..i] + Substitute(s[i..])
    decreases i
  {
    if i > 0 {
      NoMatchTail(s, i);
      KeptHead(s);
      SubstituteKeeps(s[1..], i - 1);
      PrefixShift(s, i, Substitute(s[i..]));
    } else {
      assert s[..0] == [] && s[0..] == s;
    }
  }

  /** A first character where no match starts is kept. */
  lemma KeptHead(s: string)
    requires |s| > 0 && !PosixStart(s) && !DriveStart(s)
    ensures Substitute(s) == [s[0]] + Substitute(s[1..])
  {
  }

  /** No match before `i` means none at the front and none before `i - 1`
      in the rest. */
  lemma NoMatchTail(s: string, i: nat)
    requires NoMatchBefore(s, i) && i > 0
    ensures |s| > 0 && !PosixStart(s) && !DriveStart(s)
    ensures NoMatchBefore(s[1..], i - 1)
  {
    assert s[0..] == s;
    forall k | 0 <= k < i - 1 ensures s[1..][k..] == s[k + 1..] {
    }
  }

  /** The kept first character followed by the kept rest of the prefix is
      the whole prefix; split out to keep the induction step small. */
  lemma PrefixShift(s: string, i: nat, x: string)
    requires 0 < i <= |s|
    ensures [s[0]] + (s[1..][..i - 1] + x) == s[..i] + x
    ensures s[1..][i - 1..] == s[i..]
  {
    assert [s[0]] + s[1..][..i - 1] == s[..i];
  }

  /** The leftmost match, at `i`, becomes exactly one replacement: the
      text before it is kept, and the scan resumes right after the match. */
  lemma LeftmostReplaced(s: string, i: nat)
    requires NoMatchBefore(s, i) && i < |s| && MatchAt(s[i..]) > 0
    ensures Redact(s) == s[..i] + Redacted + Redact(s[i + MatchAt(s[i..])..])
  {
    SubstituteKeeps(s, i);
    RedactHead(s[i..]);
    assert s[i..][MatchAt(s[i..])..] == s[i + MatchAt(s[i..])..];
  }

  /** With no match anywhere, the text comes back unchanged: together with
      the lemma above this fixes the result of every redaction. */
  lemma NoMatchKept(s: string)
    requires NoMatchBefore(s, |s|)
    ensures Redact(s) == s
  {
    SubstituteKeeps(s, |s|);
    assert s[..|s|] == s && s[|s|..] == [];
  }

  /** `redact_path` is idempotent. */
  lemma RedactIdempotent(s: string)
    ensures Redact(Redact(s)) == Redact(s)
  {
  }

  // ---------------------------------------------------------------------
  // Sorting and the 95th percentile

  predicate Sorted(ys: seq<int>) {
    forall i, j :: 0 <= i < j < |ys| ==> ys[i] <= ys[j]
  }

  /** Number of elements of `xs` below `v`. */
  function CountBelow(xs: seq<int>, v: int): nat {
    if |xs| == 0 then 0 else (if xs[0] < v then 1 else 0) + CountBelow(xs[1..], v)
  }

  /** Number of elements of `xs` at most `v`. */
  function CountUpTo(xs: seq<int>, v: int): nat {
    if |xs| == 0 then 0 else (if xs[0] <= v then 1 else 0) + CountUpTo(xs[1..], v)
  }

  /** `x` placed before the first element of `ys` not below it. */
  function Insert(x: int, ys: seq<int>): (r: seq<int>)
    ensures |r| == |ys| + 1
    ensures r[0] == x || (|ys| > 0 && r[0] == ys[0])
  {
    if |ys| == 0 || x <= ys[0] then [x] + ys else [ys[0]] + Insert(x, ys[1..])
  }

  /** Python's `sorted` on a list of numbers: the ascending arrangement. */
  function SortAsc(xs: seq<int>): seq<int> {
    if |xs| == 0 then [] else Insert(xs[0], SortAsc(xs[1..]))
  }

  lemma {:induction false} InsertSorted(x: int, ys: seq<int>)
    requires Sorted(ys)
    ensures Sorted(Insert(x, ys))
    decreases |ys|
  {
    if |ys| > 0 && x > ys[0] {
      var t := Insert(x, ys[1..]);
      InsertSorted(x, ys[1..]);
      assert Insert(x, ys) == [ys[0]] + t;
      assert ys[0] <= t[0];
    }
  }

  lemma {:induction false} InsertCounts(x: int, ys: seq<int>, v: int)
    ensures multiset(Insert(x, ys)) == multiset(ys) + multiset{x}
    ensures CountBelow(Insert(x, ys), v) == CountBelow(ys, v) + (if x < v then 1 else 0)
    ensures CountUpTo(Insert(x, ys), v) == CountUpTo(ys, v) + (if x <= v then 1 else 0)
    decreases |ys|
  {
    if |ys| == 0 || x <= ys[0] {
      assert ([x] + ys)[1..] == ys;
    } else {
      var t := Insert(x, ys[1..]);
      InsertCounts(x, ys[1..], v);
      assert ([ys[0]] + t)[1..] == t;
      assert ys == [ys[0]] + ys[1..];
    }
  }

  /** The sorted list is ascending, a rearrangement of the input, and has
      the same number of elements below and at most each value. */
  lemma {:induction false} SortAscSpec(xs: seq<int>, v: int)
    ensures Sorted(SortAsc(xs))
    ensures |SortAsc(xs)| == |xs|
    ensures multiset(SortAsc(xs)) == multiset(xs)
    ensures CountBelow(SortAsc(xs), v) == CountBelow(xs, v)
    ensures CountUpTo(SortAsc(xs), v) == CountUpTo(xs, v)
  {
    if |xs| > 0 {
      SortAscSpec(xs[1..], v);
      InsertSorted(xs[0], SortAsc(xs[1..]));
      InsertCounts(xs[0], SortAsc(xs[1..]), v);
      assert xs == [xs[0]] + xs[1..];
    }
  }

  /** In an ascending list the element at `k` has at most `k` elements
      below it and more than `k` elements at most it. */
  lemma {:induction false} SortedRank(ys: seq<int>, k: nat)
    requires Sorted(ys) && k < |ys|
    ensures CountBelow(ys, ys[k]) <= k < CountUpTo(ys, ys[k])
    decreases k
  {
    var t := ys[1..];
    assert Sorted(t);
    if k == 0 {
      NoneBelow(t, ys[0]);
    } else {
      SortedRank(t, k - 1);
      assert t[k - 1] == ys[k];
    }
  }

  lemma {:induction false} NoneBelow(xs: seq<int>, v: int)
    requires forall i :: 0 <= i < |xs| ==> v <= xs[i]
    ensures CountBelow(xs, v) == 0
  {
    if |xs| > 0 {
      NoneBelow(xs[1..], v);
    }
  }

  /** Every element at most `a` is below `b` when `a < b`. */
  lemma {:induction false} CountsOrdered(xs: seq<int>, a: int, b: int)
    requires a < b
    ensures CountUpTo(xs, a) <= CountBelow(xs, b)
  {
    if |xs| > 0 {
      CountsOrdered(xs[1..], a, b);
    }
  }

  /** The rank condition pins the value down: at most one value has at
      most `k` elements below it and more than `k` at most it.  So the
      percentile does not depend on the sorting algorithm. */
  lemma RankUnique(xs: seq<int>, k: nat, a: int, b: int)
    requires CountBelow(xs, a) <= k < CountUpTo(xs, a)
    requires CountBelow(xs, b) <= k < CountUpTo(xs, b)
    ensures a == b
  {
    if a < b {
      CountsOrdered(xs, a, b);
    } else if b < a {
      CountsOrdered(xs, b, a);
    }
  }

  /** `min(int(n * 0.95), n - 1)`, the clamped index into the sorted list.
      For a positive count the exact index `n * 95 / 100` is already below
      `n`, so the clamp never changes it. */
  function P95Index(n: nat): (k: nat)
    requires n > 0
    ensures k < n
    ensures k == n * 95 / 100
  {
    if n * 95 / 100 < n - 1 then n * 95 / 100 else n - 1
  }

  // ---------------------------------------------------------------------
  // The metrics store

  /** Number of `false` entries: the failed calls. */
  function Failures(outcomes: seq<bool>): nat {
    if |outcomes| == 0 then 0
    else Failures(outcomes[..|outcomes| - 1]) + (if outcomes[|outcomes| - 1] then 0 else 1)
  }

  lemma {:induction false} FailuresBound(outcomes: seq<bool>)
    ensures Failures(outcomes) <= |outcomes|
    ensures Failures(outcomes) == |outcomes| <==> forall i :: 0 <= i < |outcomes| ==> !outcomes[i]
  {
    if |outcomes| > 0 {
      var init := outcomes[..|outcomes| - 1];
      FailuresBound(init);
      if forall i :: 0 <= i < |init| ==> !init[i] {
        assert forall i :: 0 <= i < |outcomes| - 1 ==> outcomes[i] == init[i];
      } else {
        var i :| 0 <= i < |init| && init[i];
        assert outcomes[i];
      }
    }
  }

  /** A count out of a positive total, as a real, lies in [0, 1] and is 1
      exactly when the two agree. */
  lemma Fraction(e: nat, n: nat)
    requires 0 < n && e <= n
    ensures 0.0 <= e as real / n as real <= 1.0
    ensures e as real / n as real == 1.0 <==> e == n
  {
    var nr, er := n as real, e as real;
    var r := er / nr;
    assert r * nr == er;
    SignOfFactor(r, nr);
    assert (1.0 - r) * nr == nr - er;
    SignOfFactor(1.0 - r, nr);
    if e == n {
      assert r * nr == 1.0 * nr;
    }
  }

  /** A product with a positive factor has the sign of the other factor. */
  lemma SignOfFactor(x: real, y: real)
    requires y > 0.0
    ensures x * y >= 0.0 <==> x >= 0.0
    ensures x * y == 0.0 <==> x == 0.0
  {
  }

  /** `get_summary()`. */
  datatype Summary = Summary(totalCalls: nat, errors: nat, errorRate: real, p95LatencyMs: int)

  /** The in-memory store: one latency per call, a call counter and an
      error counter.  `outcomes` records, for the proofs only, whether each
      call succeeded. */
  class Metrics {
    var latencies: seq<int>
    var errors: nat
    var totalCalls: nat
    ghost var outcomes: seq<bool>

    ghost predicate Valid()
      reads this
    {
      |latencies| == |outcomes| == totalCalls && errors == Failures(outcomes)
    }

    constructor()
      ensures Valid()
      ensures latencies == [] && errors == 0 && totalCalls == 0
    {
      latencies := [];
      errors := 0;
      totalCalls := 0;
      outcomes := [];
    }

    /** `add_call(duration, success)`. */
    method AddCall(duration: int, success: bool)
      requires Valid()
      modifies this
      ensures Valid()
      ensures latencies == old(latencies) + [duration]
      ensures totalCalls == old(totalCalls) + 1
      ensures errors == old(errors) + (if success then 0 else 1)
      ensures outcomes == old(outcomes) + [success]
    {
      latencies := latencies + [duration];
      totalCalls := totalCalls + 1;
      if !success {
        errors := errors + 1;
      }
      assert (outcomes + [success])[..|outcomes|] == outcomes;
      outcomes := outcomes + [success];
    }

    /** The store's invariant gives one latency per call and no more errors
        than calls; every call failed exactly when the two counters agree. */
    lemma CountersAgree()
      requires Valid()
      ensures |latencies| == totalCalls
      ensures errors <= totalCalls
      ensures errors == totalCalls <==> forall i :: 0 <= i < |outcomes| ==> !outcomes[i]
    {
      FailuresBound(outcomes);
      if totalCalls > 0 {
        Fraction(errors, totalCalls);
      }
    }

    /** `get_p95()`: 0 with no calls, otherwise the element of rank
        `P95Index` in the ascending order of the latencies. */
    function GetP95(): (r: int)
      reads this
      ensures |latencies| == 0 ==> r == 0
      ensures |latencies| > 0 ==> r in latencies
      ensures |latencies| > 0 ==>
        CountBelow(latencies, r) <= P95Index(|latencies|) < CountUpTo(latencies, r)
    {
      if |latencies| == 0 then 0
      else
        var ys := SortAsc(latencies);
        var k := P95Index(|latencies|);
        SortAscSpec(latencies, 0);
        SortedRank(ys, k);
        SortAscSpec(latencies, ys[k]);
        assert ys[k] in multiset(ys);
        ys[k]
    }

    /** `get_summary()`: the counters, the error rate (0 with no calls) and
        the 95th-percentile latency scaled by 1000. */
    function GetSummary(): (s: Summary)
      reads this
      ensures s.totalCalls == totalCalls && s.errors == errors
      ensures totalCalls == 0 ==> s.errorRate == 0.0
      ensures totalCalls > 0 ==> s.errorRate * totalCalls as real == errors as real
      ensures s.p95LatencyMs == 1000 * GetP95()
    {
      var rate := if totalCalls > 0 then errors as real / totalCalls as real else 0.0;
      Summary(totalCalls, errors, rate, GetP95() * 1000)
    }

    /** Under the store's invariant the error rate is a fraction. */
    lemma RateBounded()
      requires Valid()
      ensures 0.0 <= GetSummary().errorRate <= 1.0
      ensures GetSummary().errorRate == 1.0 <==> totalCalls > 0 && forall i :: 0 <= i < |outcomes| ==> !outcomes[i]
    {
      FailuresBound(outcomes);
      if totalCalls > 0 {
        Fraction(errors, totalCalls);
      }
    }
  }

  // ---------------------------------------------------------------------
  // track_performance

  /** What the wrapped function returned: a string or some other value. */
  datatype Value = Text(text: string) | NonText

  /** How the wrapped call ended: it returned a value, raised an
      `Exception`, or was ended by a `BaseException` that is not an
      `Exception` (`KeyboardInterrupt`, `SystemExit`, ...), which the
      wrapper's `except Exception` does not catch. */
  datatype Outcome = Returned(value: Value) | Raised(message: string) | Interrupted(kind: string)

  /** The success rule: a call fails when it raises an `Exception` or
      returns a string starting with `Error`.  An interrupted call leaves
      the flag as it was set before the call, so it counts as a success. */
  predicate Succeeded(outcome: Outcome): (ok: bool)
    ensures outcome.Raised? ==> !ok
    ensures outcome.Interrupted? ==> ok
    ensures outcome.Returned? && outcome.value.Text? ==>
      (ok <==> |outcome.value.text| < 5 || outcome.value.text[..5] != "Error")
    ensures outcome == Returned(NonText) ==> ok
  {
    match outcome
    case Raised(_) => false
    case Interrupted(_) => true
    case Returned(NonText) => true
    case Returned(Text(s)) => !StartsWith(s, "Error")
  }

  /** The wrapper around one call whose outcome is `outcome` and which
      took `duration`: it records the call once and hands the outcome back
      unchanged (a raised or interrupting exception is raised again). */
  method TrackPerformance(m: Metrics, outcome: Outcome, duration: int) returns (result: Outcome)
    requires m.Valid()
    modifies m
    ensures m.Valid()
    ensures result == outcome
    ensures m.latencies == old(m.latencies) + [duration]
    ensures m.totalCalls == old(m.totalCalls) + 1
    ensures m.errors == old(m.errors) + (if Succeeded(outcome) then 0 else 1)
    ensures m.outcomes == old(m.outcomes) + [Succeeded(outcome)]
  {
    var success := true;
    match outcome {
      case Raised(_) =>
        success := false;
      case Interrupted(_) =>
      case Returned(v) =>
        if v.Text? && |v.text| >= 5 && v.text[..5] == "Error" {
          success := false;
        }
    }
    m.AddCall(duration, success);
    result := outcome;
  }
}
