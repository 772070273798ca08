/** The parts of Python's `posixpath` that `sanitize_path` relies on:
    `split('/')`, `'/'.join`, `join`, `normpath`, `abspath` and
    `commonpath`, all purely lexical.  A path is a string; its segments
    are the pieces between slashes. */
module PosixPath {
  import opened Strings

  predicate IsAbs(p: string) {
    |p| > 0 && p[0] == '/'
  }

  /** `s.split('/')`: never empty, and no piece holds a slash. */
  function Split(s: string): (parts: seq<string>)
    ensures |parts| >= 1
    ensures forall q <- parts :: '/' !in q
    decreases |s|
  {
    var i := IndexOf(s, '/');
    if i == |s| then [s] else [s[..i]] + Split(s[i + 1..])
  }

  /** `'/'.join(parts)`. */
  function JoinSegments(parts: seq<string>): string {
    if |parts| == 0 then ""
    else if |parts| == 1 then parts[0]
    else parts[0] + "/" + JoinSegments(parts[1..])
  }

  /** A segment a normalised path can hold. */
  predicate IsName(q: string) {
    q != "" && q != "." && q != ".." && '/' !in q
  }

  predicate Normal(segs: seq<string>) {
    forall q <- segs :: IsName(q)
  }

  /** The segments that `commonpath` compares: the pieces of `split('/')`
      that are neither empty nor `.`. */
  function Components(p: string): (cs: seq<string>)
    ensures forall c <- cs :: c != "" && c != "." && '/' !in c
  {
    DropEmptyAndDot(Split(p))
  }

  function DropEmptyAndDot(parts: seq<string>): (r: seq<string>)
    ensures |r| <= |parts|
    ensures forall q <- r :: q in parts && q != "" && q != "."
  {
    if |parts| == 0 then []
    else if parts[0] == "" || parts[0] == "." then DropEmptyAndDot(parts[1..])
    else [parts[0]] + DropEmptyAndDot(parts[1..])
  }

  /** The segment loop of `normpath` for an absolute path: `stack` holds the
      segments kept so far; empty and `.` segments are skipped, `..` removes
      the last kept segment and is dropped at the root. */
  function Resolve(stack: seq<string>, parts: seq<string>): (r: seq<string>)
    ensures Normal(stack) && (forall q <- parts :: '/' !in q) ==> Normal(r)
    decreases |parts|
  {
    if |parts| == 0 then stack
    else if parts[0] == "" || parts[0] == "." then Resolve(stack, parts[1..])
    else if parts[0] == ".." then Resolve(if |stack| == 0 then [] else stack[..|stack| - 1], parts[1..])
    else Resolve(stack + [parts[0]], parts[1..])
  }

  /** `normpath` keeps exactly two leading slashes, and makes one of one or
      of three or more. */
  function NormRoot(p: string): (root: string)
    ensures root == "/" || root == "//"
  {
    if StartsWith(p, "//") && !StartsWith(p, "///") then "//" else "/"
  }

  function NormSegments(p: string): (segs: seq<string>)
    ensures Normal(segs)
  {
    Resolve([], Split(p))
  }

  /** `os.path.normpath(p)` for an absolute `p`. */
  function Normpath(p: string): (r: string)
    requires IsAbs(p)
    ensures IsAbs(r)
  {
    NormRoot(p) + JoinSegments(NormSegments(p))
  }

  /** `os.path.join(a, b)` with two arguments. */
  function Join(a: string, b: string): string {
    if IsAbs(b) then b
    else if a == "" || a[|a| - 1] == '/' then a + b
    else a + "/" + b
  }

  /** `os.path.abspath(p)`, where `cwd` is what `os.getcwd()` returns. */
  function Abspath(p: string, cwd: string): (r: string)
    requires IsAbs(cwd)
    ensures IsAbs(r)
  {
    Normpath(if IsAbs(p) then p else Join(cwd, p))
  }

  /** The longest common prefix of two segment lists. */
  function CommonPrefix(x: seq<string>, y: seq<string>): (r: seq<string>)
    ensures r <= x && r <= y
    ensures |r| == |x| || |r| == |y| || x[|r|] != y[|r|]
  {
    if |x| == 0 || |y| == 0 || x[0] != y[0] then []
    else [x[0]] + CommonPrefix(x[1..], y[1..])
  }

  /** `os.path.commonpath([a, b])` for two absolute paths: a single slash
      followed by the segments the two share. */
  function CommonPath(a: string, b: string): (r: string)
    requires IsAbs(a) && IsAbs(b)
    ensures IsAbs(r)
  {
    "/" + JoinSegments(CommonPrefix(Components(a), Components(b)))
  }

  // ---------------------------------------------------------------------
  // Splitting and joining

  /** Splitting undoes joining. */
  lemma {:induction false} SplitJoin(parts: seq<string>)
    requires |parts| >= 1 && forall q <- parts :: '/' !in q
    ensures Split(JoinSegments(parts)) == parts
    decreases |parts|
  {
    assert parts[0] in parts;
    if |parts| == 1 {
      assert IndexOf(parts[0], '/') == |parts[0]|;
    } else {
      var head, rest := parts[0], JoinSegments(parts[1..]);
      var s := head + ("/" + rest);
      assert s == JoinSegments(parts);
      assert IndexOf("/" + rest, '/') == 0;
      IndexOfConcat(head, "/" + rest, '/');
      assert IndexOf(s, '/') == |head|;
      assert s[..|head|] == head;
      assert s[|head| + 1..] == rest;
      assert forall q <- parts[1..] :: q in parts;
      SplitJoin(parts[1..]);
    }
  }

  /** Splitting at a slash splits the pieces on both sides of it. */
  lemma {:induction false} SplitAtSlash(a: string, b: string)
    ensures Split(a + "/" + b) == Split(a) + Split(b)
    decreases |a|
  {
    var i := IndexOf(a, '/');
    if i == |a| {
      var s := a + "/" + b;
      IndexOfConcat(a, "/" + b, '/');
      assert s == a + ("/" + b);
      assert IndexOf("/" + b, '/') == 0;
      assert s[..|a|] == a && s[|a| + 1..] == b;
    } else {
      assert a[i + 1..] + "/" + b == (a + "/" + b)[i + 1..];
      SplitAtSlash(a[i + 1..], b);
      SplitAtInnerSlash(a, b, i);
    }
  }

  /** The step of `SplitAtSlash` when `a` itself holds a slash at `i`. */
  lemma SplitAtInnerSlash(a: string, b: string, i: nat)
    requires i < |a| && i == IndexOf(a, '/')
    requires Split((a + "/" + b)[i + 1..]) == Split(a[i + 1..]) + Split(b)
    ensures Split(a + "/" + b) == Split(a) + Split(b)
  {
    var s := a + "/" + b;
    FirstSlashKept(a, b, i);
    SplitUnfold(s, i);
    SplitUnfold(a, i);
    SeqAssoc([a[..i]], Split(a[i + 1..]), Split(b));
  }

  lemma FirstSlashKept(a: string, b: string, i: nat)
    requires i < |a| && i == IndexOf(a, '/')
    ensures IndexOf(a + "/" + b, '/') == i && (a + "/" + b)[..i] == a[..i]
  {
    IndexOfConcat(a, "/" + b, '/');
    assert a + "/" + b == a + ("/" + b);
  }

  lemma SplitUnfold(s: string, i: nat)
    requires i < |s| && i == IndexOf(s, '/')
    ensures Split(s) == [s[..i]] + Split(s[i + 1..])
  {
  }

  /** Regrouping a concatenation, stated once so callers can name it. */
  lemma SeqAssoc<T>(x: seq<T>, y: seq<T>, z: seq<T>)
    ensures x + (y + z) == x + y + z
  {
  }

  lemma {:induction false} JoinSegmentsAppend(x: seq<string>, y: seq<string>)
    requires |x| >= 1 && |y| >= 1
    ensures JoinSegments(x + y) == JoinSegments(x) + "/" + JoinSegments(y)
    decreases |x|
  {
    if |x| == 1 {
      assert (x + y)[1..] == y;
    } else {
      assert (x + y)[1..] == x[1..] + y;
      JoinSegmentsAppend(x[1..], y);
    }
  }

  /** Joined names never start with a slash. */
  lemma JoinedNamesStart(segs: seq<string>)
    requires Normal(segs) && |segs| >= 1
    ensures |JoinSegments(segs)| >= 1 && JoinSegments(segs)[0] != '/'
  {
    assert segs[0] in segs && IsName(segs[0]);
    if |segs| > 1 {
      assert JoinSegments(segs) == segs[0] + ("/" + JoinSegments(segs[1..]));
    }
    assert JoinSegments(segs)[0] == segs[0][0];
  }

  /** Joined names never end with a slash. */
  lemma {:induction false} JoinedNamesEnd(segs: seq<string>)
    requires Normal(segs) && |segs| >= 1
    ensures |JoinSegments(segs)| >= 1 && JoinSegments(segs)[|JoinSegments(segs)| - 1] != '/'
    decreases |segs|
  {
    var last := segs[|segs| - 1];
    assert last in segs && IsName(last);
    if |segs| == 1 {
      assert last[|last| - 1] in last;
    } else {
      assert forall q <- segs[1..] :: q in segs;
      JoinedNamesEnd(segs[1..]);
    }
  }

  /** A trailing slash adds one empty piece to the split. */
  lemma SplitTrailingSlash(a: string)
    requires |a| > 0 && a[|a| - 1] == '/'
    ensures Split(a) == Split(a[..|a| - 1]) + [""]
  {
    var x := a[..|a| - 1];
    assert x + "/" + "" == a;
    SplitAtSlash(x, "");
    SplitEmpty();
  }

  lemma SplitEmpty()
    ensures Split("") == [""]
  {
    assert IndexOf("", '/') == 0;
  }

  /** A single-rooted path built from names is already normal: `abspath`
      leaves it as it is. */
  lemma RenderedIsFixed(segs: seq<string>, cwd: string)
    requires IsAbs(cwd) && Normal(segs) && |segs| >= 1
    ensures NormRoot("/" + JoinSegments(segs)) == "/"
    ensures Abspath("/" + JoinSegments(segs), cwd) == "/" + JoinSegments(segs)
    ensures Components("/" + JoinSegments(segs)) == segs
  {
    var p := "/" + JoinSegments(segs);
    JoinedNamesStart(segs);
    assert p[1] == JoinSegments(segs)[0];
    assert !StartsWith(p, "//") by {
      if |p| >= 2 { assert p[..2][1] != '/'; }
    }
    NormSegmentsOfRendered("/", segs);
    ComponentsOfRendered("/", segs);
  }

  lemma {:induction false} DropEmptyAndDotNormal(segs: seq<string>)
    requires Normal(segs)
    ensures DropEmptyAndDot(segs) == segs
    decreases |segs|
  {
    if |segs| > 0 {
      assert segs[0] in segs;
      DropEmptyAndDotNormal(segs[1..]);
    }
  }

  lemma {:induction false} DropEmptyAndDotAppend(x: seq<string>, y: seq<string>)
    ensures DropEmptyAndDot(x + y) == DropEmptyAndDot(x) + DropEmptyAndDot(y)
    decreases |x|
  {
    if |x| == 0 {
      assert x + y == y;
    } else {
      assert (x + y)[1..] == x[1..] + y;
      DropEmptyAndDotAppend(x[1..], y);
    }
  }

  /** The segments of a rendered normal path are the ones it was built from:
      a normalised path is determined by its root and its components. */
  lemma ComponentsOfRendered(root: string, segs: seq<string>)
    requires root == "/" || root == "//"
    requires Normal(segs)
    ensures Components(root + JoinSegments(segs)) == segs
  {
    var j := JoinSegments(segs);
    var lead := if root == "/" then [""] else ["", ""];
    SplitOfRooted(root, j);
    DropEmptyAndDotAppend(lead, Split(j));
    if |segs| == 0 {
      SplitEmpty();
    } else {
      assert forall q <- segs :: '/' !in q by {
        forall q | q in segs ensures '/' !in q { assert IsName(q); }
      }
      SplitJoin(segs);
      DropEmptyAndDotNormal(segs);
    }
  }

  /** The root of a path contributes one empty piece per slash. */
  lemma SplitOfRooted(root: string, j: string)
    requires root == "/" || root == "//"
    ensures Split(root + j) == (if root == "/" then [""] else ["", ""]) + Split(j)
  {
    if root == "/" {
      SplitOfSlash(j);
    } else {
      assert root + j == "/" + ("/" + j);
      SplitOfSlash("/" + j);
      SplitOfSlash(j);
    }
  }

  lemma SplitOfSlash(j: string)
    ensures Split("/" + j) == [""] + Split(j)
  {
    assert "/" + j == "" + "/" + j;
    SplitAtSlash("", j);
    SplitEmpty();
  }

  // ---------------------------------------------------------------------
  // Resolving segments

  /** Resolving a concatenation resolves its two halves in turn. */
  lemma {:induction false} ResolveAppend(stack: seq<string>, x: seq<string>, y: seq<string>)
    ensures Resolve(stack, x + y) == Resolve(Resolve(stack, x), y)
    decreases |x|
  {
    if |x| == 0 {
      assert x + y == y;
    } else {
      assert (x + y)[1..] == x[1..] + y;
      var next := if x[0] == "" || x[0] == "." then stack
                  else if x[0] == ".." then (if |stack| == 0 then [] else stack[..|stack| - 1])
                  else stack + [x[0]];
      ResolveAppend(next, x[1..], y);
    }
  }

  /** Without `..`, resolving only drops empty and `.` segments, so the
      stack stays a prefix of the result. */
  lemma {:induction false} ResolveWithoutParent(stack: seq<string>, parts: seq<string>)
    requires forall q <- parts :: q != ".."
    ensures Resolve(stack, parts) == stack + DropEmptyAndDot(parts)
    decreases |parts|
  {
    if |parts| > 0 {
      assert parts[0] in parts;
      assert forall q <- parts[1..] :: q in parts;
      ResolveWithoutParent(if parts[0] == "" || parts[0] == "." then stack else stack + [parts[0]], parts[1..]);
    }
  }

  /** A normalised path resolves to its own components. */
  lemma NormSegmentsOfRendered(root: string, segs: seq<string>)
    requires root == "/" || root == "//"
    requires Normal(segs)
    ensures NormSegments(root + JoinSegments(segs)) == segs
  {
    var p := root + JoinSegments(segs);
    ComponentsOfRendered(root, segs);
    assert forall q <- Split(p) :: q != ".." by {
      forall q | q in Split(p) ensures q != ".." {
        if q != "" && q != "." { ComponentInSplit(Split(p), q); assert q in segs; }
      }
    }
    ResolveWithoutParent([], Split(p));
  }

  lemma {:induction false} ComponentInSplit(parts: seq<string>, q: string)
    requires q in parts && q != "" && q != "."
    ensures q in DropEmptyAndDot(parts)
    decreases |parts|
  {
    if parts[0] != q {
      ComponentInSplit(parts[1..], q);
    }
  }

  /** Joining a relative `path` onto a normalised path puts `path`'s
      segments on top of that path's segments. */
  lemma JoinedSegments(root: string, segs: seq<string>, path: string)
    requires root == "/" || root == "//"
    requires Normal(segs) && !IsAbs(path)
    ensures NormSegments(Join(root + JoinSegments(segs), path)) == Resolve(segs, Split(path))
  {
    var a := root + JoinSegments(segs);
    var a' := if a[|a| - 1] == '/' then a[..|a| - 1] else a;
    assert Join(a, path) == a' + "/" + path;
    SplitAtSlash(a', path);
    ResolveAppend([], Split(a'), Split(path));
    TrimmedSegments(root, segs);
  }

  /** A normalised path without its trailing slash (the bare root `//`
      has one) still resolves to its segments. */
  lemma TrimmedSegments(root: string, segs: seq<string>)
    requires root == "/" || root == "//"
    requires Normal(segs)
    ensures var a := root + JoinSegments(segs);
      Resolve([], Split(if a[|a| - 1] == '/' then a[..|a| - 1] else a)) == segs
  {
    var a := root + JoinSegments(segs);
    NormSegmentsOfRendered(root, segs);
    if a[|a| - 1] == '/' {
      TrailingSlashIgnored(a);
    }
  }

  /** A trailing slash adds only an empty piece, which resolving skips. */
  lemma TrailingSlashIgnored(a: string)
    requires |a| > 0 && a[|a| - 1] == '/'
    ensures Resolve([], Split(a[..|a| - 1])) == NormSegments(a)
  {
    SplitTrailingSlash(a);
    ResolveAppend([], Split(a[..|a| - 1]), [""]);
  }

  /** Joining plain names onto a rendered path appends them as segments. */
  lemma JoinNames(segs: seq<string>, names: seq<string>)
    requires Normal(segs) && |segs| >= 1 && Normal(names) && |names| >= 1
    ensures Join("/" + JoinSegments(segs), JoinSegments(names)) == "/" + JoinSegments(segs + names)
    ensures "/" + JoinSegments(segs + names) == "/" + JoinSegments(segs) + "/" + JoinSegments(names)
    ensures Normal(segs + names)
  {
    var base := "/" + JoinSegments(segs);
    JoinedNamesStart(names);
    JoinedNamesEnd(segs);
    assert base[|base| - 1] != '/';
    JoinSegmentsAppend(segs, names);
    SlashConcat(JoinSegments(segs), JoinSegments(names));
    NormalAppend(segs, names);
  }

  /** Regrouping a slash-separated concatenation, stated once so callers
      can name it. */
  lemma SlashConcat(x: string, y: string)
    ensures "/" + (x + "/" + y) == "/" + x + "/" + y
  {
  }

  lemma NormalAppend(x: seq<string>, y: seq<string>)
    requires Normal(x) && Normal(y)
    ensures Normal(x + y)
  {
    forall q | q in x + y ensures IsName(q) { assert q in x || q in y; }
  }

  /** Root and segments of a normalised path. */
  lemma NormpathShape(p: string)
    requires IsAbs(p)
    ensures Components(Normpath(p)) == NormSegments(p)
    ensures NormRoot(Normpath(p)) == NormRoot(p)
  {
    ComponentsOfRendered(NormRoot(p), NormSegments(p));
    var segs := NormSegments(p);
    if |segs| >= 1 {
      JoinedNamesStart(segs);
    }
  }

  // ---------------------------------------------------------------------
  // commonpath

  /** `commonpath([a, t]) == a` for a normalised `a` holds exactly when `a`
      has a single-slash root and its components are a prefix of `t`'s. */
  lemma CommonPathIsBase(a: string, t: string)
    requires IsAbs(a) && IsAbs(t)
    requires a == NormRoot(a) + JoinSegments(Components(a)) && Normal(Components(a))
    ensures CommonPath(a, t) == a <==> NormRoot(a) == "/" && Components(a) <= Components(t)
  {
    var ca, ct := Components(a), Components(t);
    var cp := CommonPrefix(ca, ct);
    assert Normal(cp) by {
      forall q | q in cp ensures IsName(q) {
        var k :| 0 <= k < |cp| && cp[k] == q;
        assert ca[k] == q;
      }
    }
    if NormRoot(a) == "//" {
      if |cp| == 0 {
        assert |CommonPath(a, t)| == 1 < |a|;
      } else {
        JoinedNamesStart(cp);
        assert CommonPath(a, t)[1] != '/' && a[1] == '/';
      }
    }
    if CommonPath(a, t) == a {
      ComponentsOfRendered("/", cp);
      assert cp == ca;
    }
    if NormRoot(a) == "/" && ca <= ct {
      assert cp == ca;
    }
  }
}
