/** POSIX paths: the string form that the policy compares, and the list of segments it stands for. */
module PathNames {
  import opened Strings

  predicate ProperSegment(s: string) {
    s != [] && '/' !in s && s != "." && s != ".."
  }

  predicate Normal(segments: seq<string>) {
    forall i | 0 <= i < |segments| :: ProperSegment(segments[i])
  }

  /** A normalised absolute path, as `path.resolve` and `realpathSync` return it. */
  type Path = segments: seq<string> | Normal(segments) witness []

  // ---- Strings and segments ----

  function Tail(segments: seq<string>): string {
    if segments == [] then "" else "/" + segments[0] + Tail(segments[1..])
  }

  function Render(segments: seq<string>): string {
    if segments == [] then "/" else Tail(segments)
  }

  /** `s.split('/')` without the empty pieces. */
  function Segments(s: string): seq<string>
    decreases |s|
  {
    if s == [] then []
    else
      var k := IndexOfChar(s, '/');
      var rest := if k < |s| then Segments(s[k + 1..]) else [];
      if k == 0 then rest else [s[..k]] + rest
  }

  /** The pieces of a split contain no separator and are not empty. */
  lemma {:induction false} SegmentsArePlain(s: string)
    ensures forall i | 0 <= i < |Segments(s)| :: Segments(s)[i] != [] && '/' !in Segments(s)[i]
    decreases |s|
  {
    if s == [] {
    } else {
      var k := IndexOfChar(s, '/');
      if k < |s| {
        SegmentsArePlain(s[k + 1..]);
      }
    }
  }

  lemma SlashSkipped(s: string)
    ensures Segments("/" + s) == Segments(s)
  {
  }

  lemma {:induction false} SegmentsOfTail(p: seq<string>)
    requires Normal(p)
    ensures Segments(Tail(p)) == p
  {
    if p == [] {
    } else {
      var rest := Tail(p[1..]);
      SegmentsOfTail(p[1..]);
      SlashSkipped(p[0] + rest);
      assert Tail(p) == "/" + (p[0] + rest);
      SegmentsAfterSlash(p[0], rest, p[1..]);
      assert [p[0]] + p[1..] == p;
    }
  }

  lemma SegmentsAfterSlash(first: string, rest: string, later: seq<string>)
    requires ProperSegment(first) && (rest == [] || rest[0] == '/') && Segments(rest) == later
    ensures Segments(first + rest) == [first] + later
  {
    var s := first + rest;
    if rest == [] {
      assert s == first;
      assert IndexOfChar(first, '/') == |first|;
      assert first[..|first|] == first;
    } else {
      assert s == first + ['/'] + rest[1..];
      IndexOfCharAt(first, '/', rest[1..]);
      assert s[..|first|] == first && s[|first| + 1..] == rest[1..];
      assert IndexOfChar(rest, '/') == 0;
    }
  }

  /** The string form loses nothing. */
  lemma SegmentsInvertRender(p: seq<string>)
    requires Normal(p)
    ensures Segments(Render(p)) == p
  {
    if p == [] {
      assert IndexOfChar("/", '/') == 0;
      assert "/"[1..] == "";
    } else {
      SegmentsOfTail(p);
    }
  }

  // ---- Containment ----

  /** The comparison the policy makes on strings. */
  predicate InsideString(path: string, root: string) {
    StartsWith(path, root + "/") || path == root
  }

  /** Containment of segment lists; the file system root contains only itself. */
  predicate Inside(path: seq<string>, root: seq<string>) {
    root <= path && (root == [] ==> path == [])
  }

  /** Two texts that start with slash-free segments agree only if the segments do. */
  lemma SameFirst(a: string, x: string, b: string, y: string)
    requires '/' !in a && '/' !in b
    requires x != [] && x[0] == '/'
    requires y == [] || y[0] == '/'
    requires StartsWith(b + y, a + x)
    ensures a == b
  {
    var s, t := b + y, a + x;
    assert forall i | 0 <= i < |t| :: s[i] == t[i];
    assert t[|a|] == '/' && s[|a|] == '/';
    assert forall i | 0 <= i < |b| :: s[i] == b[i] && s[i] != '/';
    assert |a| >= |b|;
    assert forall i | 0 <= i < |a| :: s[i] == a[i] && s[i] != '/';
    assert y != [] ==> s[|b|] == '/';
    assert |a| == |b|;
    assert forall i | 0 <= i < |a| :: a[i] == t[i] == s[i] == b[i];
  }

  lemma StripPrefix(c: string, s: string, t: string)
    ensures StartsWith(c + s, c + t) <==> StartsWith(s, t)
  {
    var u, v := c + s, c + t;
    if |t| <= |s| {
      assert u[0..0 + |v|] == c + s[0..0 + |t|];
      assert forall i | 0 <= i < |t| :: v[|c| + i] == t[i] && u[|c| + i] == s[i];
    }
  }

  lemma {:induction false} TailPrefix(p: seq<string>, r: seq<string>)
    requires Normal(p) && Normal(r)
    ensures StartsWith(Tail(p), Tail(r) + "/") <==> (|r| < |p| && r <= p)
    decreases |r|
  {
    if p == [] {
    } else if r == [] {
      assert Tail(r) + "/" == "/";
    } else {
      var x, y := Tail(r[1..]) + "/", Tail(p[1..]);
      assert x[0] == '/' && (y == [] || y[0] == '/');
      assert Tail(r) + "/" == "/" + (r[0] + x) && Tail(p) == "/" + (p[0] + y);
      StripPrefix("/", p[0] + y, r[0] + x);
      TailPrefix(p[1..], r[1..]);
      if r[0] == p[0] {
        StripPrefix(p[0], y, x);
        assert r <= p <==> r[1..] <= p[1..] by { PrefixCons(p, r); }
      } else if StartsWith(p[0] + y, r[0] + x) {
        SameFirst(r[0], x, p[0], y);
      }
    }
  }

  lemma PrefixCons(p: seq<string>, r: seq<string>)
    requires p != [] && r != [] && r[0] == p[0]
    ensures r <= p <==> r[1..] <= p[1..]
  {
  }

  lemma StartsWithSecond(s: string, p: string)
    requires |s| > 1 && |p| == 2
    ensures StartsWith(s, p) ==> s[1] == p[1]
  {
  }

  /** The string comparison decides exactly the containment of segment lists. */
  lemma InsideExactly(p: seq<string>, r: seq<string>)
    requires Normal(p) && Normal(r)
    ensures InsideString(Render(p), Render(r)) <==> Inside(p, r)
  {
    SegmentsInvertRender(p);
    SegmentsInvertRender(r);
    if r == [] {
      assert Render(r) + "/" == "//";
      if p != [] {
        assert Render(p)[1] == p[0][0] && p[0][0] in p[0];
        StartsWithSecond(Render(p), "//");
      }
    } else {
      TailPrefix(p, r);
      if p == [] {
        assert |Render(r) + "/"| > 1;
      }
      if r <= p && |r| == |p| {
        assert r == p;
      }
    }
  }

  // ---- path.resolve and path.relative ----

  function Apply(stack: seq<string>, segments: seq<string>): seq<string>
    decreases |segments|
  {
    if segments == [] then stack
    else if segments[0] == "." then Apply(stack, segments[1..])
    else if segments[0] == ".." then Apply(if stack == [] then [] else stack[..|stack| - 1], segments[1..])
    else Apply(stack + [segments[0]], segments[1..])
  }

  lemma {:induction false} ApplyNormal(stack: seq<string>, segments: seq<string>)
    requires Normal(stack) && forall i | 0 <= i < |segments| :: segments[i] != [] && '/' !in segments[i]
    ensures Normal(Apply(stack, segments))
    decreases |segments|
  {
    if segments == [] {
    } else if segments[0] == "." {
      ApplyNormal(stack, segments[1..]);
    } else if segments[0] == ".." {
      ApplyNormal(if stack == [] then [] else stack[..|stack| - 1], segments[1..]);
    } else {
      ApplyNormal(stack + [segments[0]], segments[1..]);
    }
  }

  /** `path.resolve(base, p)` for an absolute base. */
  function Resolve(base: Path, p: string): Path {
    SegmentsArePlain(p);
    var start := if p != [] && p[0] == '/' then [] else base;
    ApplyNormal(start, Segments(p));
    Apply(start, Segments(p))
  }

  function CommonPrefix(a: seq<string>, b: seq<string>): (n: nat)
    ensures n <= |a| && n <= |b|
  {
    if a == [] || b == [] || a[0] != b[0] then 0 else 1 + CommonPrefix(a[1..], b[1..])
  }

  /** `path.relative(from, to)` */
  function Relative(from: seq<string>, to: seq<string>): string {
    var n := CommonPrefix(from, to);
    Join(seq(|from| - n, _ => "..") + to[n..], "/")
  }

  lemma {:induction false} RelativeInside(root: seq<string>, p: seq<string>)
    requires root <= p
    ensures CommonPrefix(root, p) == |root|
  {
    if root == [] {
    } else {
      assert root[0] == p[0];
      PrefixCons(p, root);
      RelativeInside(root[1..], p[1..]);
    }
  }

  lemma RelativeIsSuffix(root: seq<string>, p: seq<string>)
    requires root <= p
    ensures Relative(root, p) == Join(p[|root|..], "/")
  {
    RelativeInside(root, p);
    assert seq(0, _ => "..") + p[|root|..] == p[|root|..];
  }
}
