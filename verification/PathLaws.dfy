/** What canonicalisation, resolution and denied patterns mean, stated without the loops that compute them. */
module PathLaws {
  import opened Strings
  import opened Governance
  import opened PathNames
  import opened PathPolicy

  // ---- A file system with links ----

  function Prefix(p: Path, i: nat): Path
    requires i <= |p|
  {
    p[..i]
  }

  function Suffix(p: Path, i: nat): Path
    requires i <= |p|
  {
    p[i..]
  }

  function Append(a: Path, b: Path): Path {
    a + b
  }

  function Child(p: Path, s: string): Path
    requires ProperSegment(s)
  {
    p + [s]
  }

  predicate Present(fs: FileSystem, p: Path) {
    fs.present(Render(p))
  }

  /** Where a path leads once all links are followed; the root leads to itself. */
  function Real(fs: FileSystem, p: Path): Option<Path> {
    if p == [] then Some([]) else fs.realpath(Render(p))
  }

  /** What is present can be resolved, and every prefix of the answer is present and leads to itself. */
  ghost predicate Resolves(fs: FileSystem) {
    forall q: Path | q != [] && Present(fs, q) :: Real(fs, q).Some? && Settled(fs, Real(fs, q).value)
  }

  ghost predicate Settled(fs: FileSystem, r: Path) {
    forall i: nat | 0 < i <= |r| :: Present(fs, Prefix(r, i)) && Real(fs, Prefix(r, i)) == Some(Prefix(r, i))
  }

  /** Nothing is present below a missing path. */
  ghost predicate NoOrphans(fs: FileSystem) {
    forall q: Path, s: string | ProperSegment(s) && q != [] && Present(fs, Child(q, s)) :: Present(fs, q)
  }

  /** A name below a path is looked up where the path leads. */
  ghost predicate FollowsLinks(fs: FileSystem) {
    forall q: Path, s: string | ProperSegment(s) && q != [] && Present(fs, q) && Real(fs, q).Some? ::
      && (Present(fs, Child(q, s)) <==> Present(fs, Child(Real(fs, q).value, s)))
      && Real(fs, Child(q, s)) == Real(fs, Child(Real(fs, q).value, s))
  }

  ghost predicate Posix(fs: FileSystem) {
    Resolves(fs) && NoOrphans(fs) && FollowsLinks(fs) && fs.realpath("/") == Some([])
  }

  /** The length of the longest prefix of `p`, from `k` on, that is present. */
  function Deepest(fs: FileSystem, p: Path, k: nat): (m: nat)
    requires k <= |p|
    ensures k <= m <= |p|
    decreases |p| - k
  {
    if k < |p| && Present(fs, Prefix(p, k + 1)) then Deepest(fs, p, k + 1) else k
  }

  lemma {:induction false} DeepestIsLongest(fs: FileSystem, p: Path, k: nat, j: nat)
    requires Posix(fs) && k <= j <= |p| && j > 0 && Present(fs, Prefix(p, j))
    ensures j <= Deepest(fs, p, k)
    decreases |p| - k
  {
    hide Render;
    if k < j {
      PrefixesPresent(fs, p, k + 1, j);
      DeepestIsLongest(fs, p, k + 1, j);
    }
  }

  lemma {:induction false} PrefixesPresent(fs: FileSystem, p: Path, i: nat, j: nat)
    requires NoOrphans(fs) && 0 < i <= j <= |p| && Present(fs, Prefix(p, j))
    ensures Present(fs, Prefix(p, i))
    decreases j
  {
    hide Render;
    if i < j {
      assert Prefix(p, j) == Child(Prefix(p, j - 1), p[j - 1]);
      PrefixesPresent(fs, p, i, j - 1);
    }
  }

  // ---- Canonicalisation follows links ----

  lemma {:induction false} AbsentTail(fs: FileSystem, at: Path, rest: Path)
    requires NoOrphans(fs) && at != [] && !Present(fs, at)
    ensures CanonFrom(fs, at, rest) == Some(Append(at, rest))
    decreases |rest|
  {
    hide Render;
    if rest == [] {
      assert at + rest == at;
    } else {
      var next := Child(at, rest[0]);
      assert !Present(fs, next);
      AbsentTail(fs, next, rest[1..]);
      assert Append(next, rest[1..]) == Append(at, rest);
    }
  }

  /** Below the present prefix of length `k`, which leads to `at`, the loop ends at the longest one. */
  lemma {:induction false} CanonWalk(fs: FileSystem, p: Path, k: nat, at: Path)
    requires Posix(fs) && k <= |p| && (k > 0 ==> Present(fs, Prefix(p, k))) && Real(fs, Prefix(p, k)) == Some(at)
    ensures var m := Deepest(fs, p, k);
            Real(fs, Prefix(p, m)).Some? && CanonFrom(fs, at, Suffix(p, k)) == Some(Append(Real(fs, Prefix(p, m)).value, Suffix(p, m)))
    decreases |p| - k
  {
    hide Render, Resolves, NoOrphans, FollowsLinks;
    if k == |p| {
      assert Suffix(p, k) == [] && Append(at, Suffix(p, k)) == at;
    } else {
      var q, next := Prefix(p, k), Child(at, p[k]);
      assert Prefix(p, k + 1) == Child(q, p[k]);
      StepFollows(fs, q, p[k], at);
      var rest := Suffix(p, k);
      assert rest[1..] == Suffix(p, k + 1) && rest[0] == p[k];
      if Present(fs, next) {
        StepResolves(fs, Prefix(p, k + 1));
        CanonWalk(fs, p, k + 1, Real(fs, Prefix(p, k + 1)).value);
      } else {
        AbsentTail(fs, next, Suffix(p, k + 1));
        assert Append(next, Suffix(p, k + 1)) == Append(at, rest);
      }
    }
  }

  lemma StepFollows(fs: FileSystem, q: Path, s: string, at: Path)
    requires Posix(fs) && ProperSegment(s) && (q != [] ==> Present(fs, q)) && Real(fs, q) == Some(at)
    ensures Present(fs, Child(q, s)) <==> Present(fs, Child(at, s))
    ensures Real(fs, Child(q, s)) == Real(fs, Child(at, s))
  {
    hide Render;
  }

  lemma StepResolves(fs: FileSystem, q: Path)
    requires Posix(fs) && q != [] && Present(fs, q)
    ensures Real(fs, q).Some? && Settled(fs, Real(fs, q).value)
  {
    hide Render;
  }

  /** The canonical path is where the longest present prefix leads, followed by the names that are missing. */
  lemma CanonicalExactly(fs: FileSystem, p: Path)
    requires Posix(fs) && p != []
    ensures var m := Deepest(fs, p, 0);
            Real(fs, Prefix(p, m)).Some? && Canonical(fs, p) == Some(Append(Real(fs, Prefix(p, m)).value, Suffix(p, m)))
  {
    hide Render, Posix, CanonFrom;
    CanonWalk(fs, p, 0, []);
    assert Suffix(p, 0) == p && Prefix(p, |p|) == p;
    if Present(fs, p) {
      DeepestIsLongest(fs, p, 0, |p|);
      assert Append(Real(fs, p).value, Suffix(p, |p|)) == Real(fs, p).value;
    }
  }

  /** Every present prefix leads to itself: no link is left in the path. */
  ghost predicate LinkFree(fs: FileSystem, c: Path) {
    forall i: nat | 0 < i <= |c| && Present(fs, Prefix(c, i)) :: Real(fs, Prefix(c, i)) == Some(Prefix(c, i))
  }

  lemma CanonicalIsLinkFree(fs: FileSystem, p: Path)
    requires Posix(fs) && p != []
    ensures Canonical(fs, p).Some? && LinkFree(fs, Canonical(fs, p).value)
  {
    hide Render, Canonical, Posix, Settled;
    CanonicalExactly(fs, p);
    DeepestStops(fs, p, 0);
    var m := Deepest(fs, p, 0);
    var r := Real(fs, Prefix(p, m)).value;
    if m > 0 {
      StepResolves(fs, Prefix(p, m));
    } else {
      RootIsSettled(fs);
    }
    if m == |p| {
      assert Append(r, Suffix(p, m)) == r;
      SettledIsLinkFree(fs, r);
    } else {
      StepFollows(fs, Prefix(p, m), p[m], r);
      assert Prefix(p, m + 1) == Child(Prefix(p, m), p[m]);
      var rest := Suffix(p, m);
      MissingIsLinkFree(fs, r, rest);
    }
  }

  lemma RootIsSettled(fs: FileSystem)
    ensures Settled(fs, [])
  {
  }

  lemma SettledIsLinkFree(fs: FileSystem, r: Path)
    requires Settled(fs, r)
    ensures LinkFree(fs, r)
  {
    hide Render;
  }

  /** Names that are missing add no link. */
  lemma MissingIsLinkFree(fs: FileSystem, r: Path, rest: Path)
    requires Posix(fs) && Settled(fs, r) && rest != [] && !Present(fs, Child(r, rest[0]))
    ensures LinkFree(fs, Append(r, rest))
  {
    hide Render, Real;
    var c := Append(r, rest);
    assert Prefix(c, |r| + 1) == Child(r, rest[0]);
    forall i: nat | 0 < i <= |c| && Present(fs, Prefix(c, i)) ensures Real(fs, Prefix(c, i)) == Some(Prefix(c, i)) {
      if i > |r| {
        PrefixesPresent(fs, c, |r| + 1, i);
      } else {
        assert Prefix(c, i) == Prefix(r, i);
      }
    }
  }

  lemma {:induction false} DeepestStops(fs: FileSystem, p: Path, k: nat)
    requires k <= |p| && (k > 0 ==> Present(fs, Prefix(p, k)))
    ensures var m := Deepest(fs, p, k); (m > 0 ==> Present(fs, Prefix(p, m))) && (m < |p| ==> !Present(fs, Prefix(p, m + 1)))
    decreases |p| - k
  {
    hide Render;
    if k < |p| && Present(fs, Prefix(p, k + 1)) {
      DeepestStops(fs, p, k + 1);
    }
  }

  lemma CanonicalRoot(fs: FileSystem)
    requires Posix(fs)
    ensures Canonical(fs, []) == Some([])
  {
  }

  /** On such a file system the path of an allowed action contains no link: what the decision looked at is
      what the action will touch, where the longest present prefix of the request really leads. */
  lemma AllowedPathIsReal(host: Host, req: PathRequest) returns (c: Path)
    requires EvaluatePath(host, req).allowed && Posix(host.fs)
    ensures EvaluatePath(host, req).normalizedPath == Some(Render(c)) && LinkFree(host.fs, c)
    ensures var root := Resolve(host.cwd, req.policy.allowedRoot);
            && root <= c && req.requestedPath.Some?
            && var path := Resolve(root, Slashes(DecodePercent(req.requestedPath.value)));
               path != [] ==>
                 var m := Deepest(host.fs, path, 0);
                 Real(host.fs, Prefix(path, m)).Some? && c == Append(Real(host.fs, Prefix(path, m)).value, Suffix(path, m))
  {
    hide Posix, LinkFree, Render, EvaluatePath, Resolve, Deepest, Real, Screened, MatchesDeny, HomeDenied;
    PathDecisionExactly(host, req);
    var root := Resolve(host.cwd, req.policy.allowedRoot);
    var path := Resolve(root, Slashes(DecodePercent(req.requestedPath.value)));
    c := AllowedPathIsContained(host, req);
    var d: Path :| Contained(host, req.requestedPath.value, req.policy.allowedRoot, d) && Permitted(host, req, d);
    assert c == d by {
      NormalizedInsideExactly(host, req.requestedPath.value, req.policy.allowedRoot);
      SameCanonical(host, req, d);
      SegmentsInvertRender(c);
      SegmentsInvertRender(d);
    }
    if path == [] {
      CanonicalRoot(host.fs);
      RootIsLinkFree(host.fs);
    } else {
      CanonicalExactly(host.fs, path);
      CanonicalIsLinkFree(host.fs, path);
    }
  }

  lemma RootIsLinkFree(fs: FileSystem)
    ensures LinkFree(fs, [])
  {
  }

  lemma SameCanonical(host: Host, req: PathRequest, d: Path)
    requires req.requestedPath.Some? && req.requestedPath.value != []
    requires Contained(host, req.requestedPath.value, req.policy.allowedRoot, d)
    ensures EvaluatePath(host, req).normalizedPath == Some(Render(d))
  {
    NormalizedInsideExactly(host, req.requestedPath.value, req.policy.allowedRoot);
    CanonicalDecision(host, req, d);
  }

  // ---- Resolution ----

  lemma {:induction false} ApplyConcat(stack: seq<string>, x: seq<string>, y: seq<string>)
    ensures Apply(stack, x + y) == Apply(Apply(stack, x), y)
    decreases |x|
  {
    if x == [] {
      assert x + y == y;
    } else {
      assert (x + y)[1..] == x[1..] + y;
      if x[0] == "." {
        ApplyConcat(stack, x[1..], y);
      } else if x[0] == ".." {
        ApplyConcat(if stack == [] then [] else stack[..|stack| - 1], x[1..], y);
      } else {
        ApplyConcat(stack + [x[0]], x[1..], y);
      }
    }
  }

  lemma {:induction false} SegmentsConcat(a: string, b: string)
    ensures Segments(a + "/" + b) == Segments(a) + Segments(b)
    decreases |a|
  {
    var t := a + "/" + b;
    var k := IndexOfChar(a, '/');
    if k == |a| {
      IndexOfCharAt(a, '/', b);
      assert t[..k] == a && t[k + 1..] == b;
      assert a[..k] == a;
      SegmentsSingle(a);
    } else {
      var first, rest := a[..k], a[k + 1..];
      assert a == first + "/" + rest;
      IndexOfCharAt(first, '/', rest + "/" + b);
      assert t == first + "/" + (rest + "/" + b);
      SegmentsConcat(rest, b);
      assert t[..k] == first && t[k + 1..] == rest + "/" + b;
    }
  }

  lemma SegmentsSingle(a: string)
    requires '/' !in a
    ensures Segments(a) == if a == [] then [] else [a]
  {
    if a != [] {
      var k := IndexOfChar(a, '/');
      assert forall i | 0 <= i < |a| :: a[i] != '/';
      assert a[..k] == a;
    }
  }

  /** Resolving step by step: a relative path after another is resolved where the first one leads. */
  lemma ResolveConcat(base: Path, a: string, b: string)
    requires a != [] && (b == [] || b[0] != '/')
    ensures Resolve(base, a + "/" + b) == Resolve(Resolve(base, a), b)
  {
    hide Segments, Apply;
    SegmentsConcat(a, b);
    assert (a + "/" + b)[0] == a[0];
    ApplyConcat(if a[0] == '/' then [] else base, Segments(a), Segments(b));
  }

  /** What resolving a single step does. */
  lemma ResolveSteps(base: Path, s: string)
    requires ProperSegment(s)
    ensures Resolve(base, s) == base + [s]
    ensures Resolve(base, "") == base && Resolve(base, ".") == base
    ensures Resolve(base, "..") == if base == [] then [] else base[..|base| - 1]
  {
    SegmentsSingle(s);
    SegmentsSingle("");
    SegmentsSingle(".");
    SegmentsSingle("..");
    hide Segments;
    ApplyOne(base, s);
    ApplyOne(base, ".");
    ApplyOne(base, "..");
    assert s[0] in s;
  }

  lemma ApplyOne(stack: seq<string>, s: string)
    ensures Apply(stack, [s]) ==
              if s == "." then stack
              else if s == ".." then (if stack == [] then [] else stack[..|stack| - 1])
              else stack + [s]
  {
    assert [s][1..] == [];
  }

  /** An absolute path in normal form is resolved to itself, whatever the base. */
  lemma ResolveAbsolute(base: Path, q: Path)
    ensures Resolve(base, Render(q)) == q
  {
    SegmentsInvertRender(q);
    RenderStarts(q);
    hide Segments, Render, Resolve, Apply;
    ResolveIs(base, Render(q));
    ApplyProper([], q);
    assert [] + q == q;
  }

  lemma ResolveIs(base: Path, p: string)
    ensures Resolve(base, p) == Apply(if p != [] && p[0] == '/' then [] else base, Segments(p))
  {
    hide Segments, Apply;
  }

  lemma RenderStarts(q: Path)
    ensures Render(q) != [] && Render(q)[0] == '/'
  {
  }

  lemma {:induction false} ApplyProper(stack: seq<string>, q: Path)
    ensures Apply(stack, q) == stack + q
    decreases |q|
  {
    if q == [] {
      assert stack + q == stack;
    } else {
      assert ProperSegment(q[0]);
      var rest: Path := q[1..];
      ApplyProper(stack + [q[0]], rest);
      assert stack + [q[0]] + rest == stack + q;
    }
  }

  // ---- Screens ----

  lemma {:induction false} DecodeLeavesPlain(s: string)
    requires '%' !in s
    ensures DecodePercent(s) == s
  {
    if s != [] {
      assert s[0] in s;
      DecodeLeavesPlain(s[1..]);
      assert [s[0]] + s[1..] == s;
    }
  }

  /** How often a path goes up, and how often down. */
  function Ups(segments: seq<string>): nat {
    if segments == [] then 0 else (if segments[0] == ".." then 1 else 0) + Ups(segments[1..])
  }

  function Downs(segments: seq<string>): nat {
    if segments == [] then 0 else (if segments[0] == ".." || segments[0] == "." then 0 else 1) + Downs(segments[1..])
  }

  lemma {:induction false} CountLast(segments: seq<string>, last: string)
    ensures Ups(segments + [last]) == Ups(segments) + if last == ".." then 1 else 0
    ensures Downs(segments + [last]) == Downs(segments) + if last == ".." || last == "." then 0 else 1
  {
    if segments == [] {
      assert [] + [last] == [last] && [last][1..] == [];
    } else {
      assert (segments + [last])[1..] == segments[1..] + [last];
      CountLast(segments[1..], last);
    }
  }

  lemma {:induction false} DepthCounts(segments: seq<string>)
    ensures Depth(segments) == Downs(segments) - Ups(segments)
    decreases |segments|
  {
    if segments != [] {
      var n := |segments| - 1;
      DepthCounts(segments[..n]);
      CountLast(segments[..n], segments[n]);
      assert segments == segments[..n] + [segments[n]];
    }
  }

  /** A request passes the textual screens exactly when nothing in it decodes to a control character, no
      encoded null byte is begun, and it goes up no more often than down. */
  lemma ScreenedExactly(requested: string)
    ensures var t := Slashes(DecodePercent(requested));
            Screened(requested) <==>
              && (forall i | 0 <= i < |t| :: 32 <= t[i] as int && t[i] as int != 127)
              && !Contains(requested, "%0")
              && Ups(Segments(t)) <= Downs(Segments(t))
  {
    DepthCounts(Segments(Slashes(DecodePercent(requested))));
    hide Depth, Segments, DecodePercent, Slashes, Ups, Downs;
  }

  // ---- Refusals beyond containment ----

  const HOME_SENSITIVE := [".ssh", ".gnupg", ".aws", ".config/gh", ".config/hub"]

  /** No allowed action touches a secret path, the home directory itself, or a sensitive place below it. */
  lemma AllowedPathAvoids(host: Host, req: PathRequest) returns (c: Path)
    requires EvaluatePath(host, req).allowed
    ensures EvaluatePath(host, req).normalizedPath == Some(Render(c)) && !host.isSecret(Render(c))
    ensures req.homeDir.Some? && req.homeDir.value != [] ==>
              var home := Render(Resolve(host.cwd, req.homeDir.value));
              Render(c) != home
              && (StartsWith(Render(c), home) ==> forall i | 0 <= i < |HOME_SENSITIVE| :: !Contains(Render(c), HOME_SENSITIVE[i]))
  {
    hide EvaluatePath, Contained, MatchesDeny, Resolve, Render;
    PathDecisionExactly(host, req);
    c :| Contained(host, req.requestedPath.value, req.policy.allowedRoot, c) && Permitted(host, req, c);
    SameCanonical(host, req, c);
    hide Contains;
    if req.homeDir.Some? && req.homeDir.value != [] {
      StartsWithItself(Render(Resolve(host.cwd, req.homeDir.value)));
    }
  }

  lemma StartsWithItself(s: string)
    ensures StartsWith(s, s)
  {
  }

  // ---- Denied patterns ----

  lemma {:induction false} GlobLiteral(p: string, s: string)
    requires '*' !in p
    ensures Glob(p, s) <==> s == p
    decreases |p|
  {
    if p != [] {
      assert p[0] in p;
      if s != [] {
        GlobLiteral(p[1..], s[1..]);
        assert s == [s[0]] + s[1..] && p == [p[0]] + p[1..];
      }
    }
  }

  /** Literal text in front of a pattern must be there, and the rest must match the rest. */
  lemma {:induction false} GlobConcat(a: string, b: string, s: string)
    requires '*' !in a
    ensures Glob(a + b, s) <==> |a| <= |s| && s[..|a|] == a && Glob(b, s[|a|..])
    decreases |a|
  {
    if a == [] {
      assert a + b == b && s[0..] == s;
    } else {
      assert a[0] in a && (a + b)[1..] == a[1..] + b && (a + b)[0] == a[0];
      if s != [] {
        GlobConcat(a[1..], b, s[1..]);
        assert |a| <= |s| ==> s[..|a|] == [s[0]] + s[1..][..|a| - 1] && s[|a|..] == s[1..][|a| - 1..];
        assert a == [a[0]] + a[1..];
      }
    }
  }

  ghost predicate RunFits(b: string, s: string, k: nat) {
    k <= |s| && '/' !in s[..k] && Glob(b, s[k..])
  }

  lemma RunShift(b: string, s: string, k: nat)
    requires s != [] && s[0] != '/'
    ensures RunFits(b, s, k + 1) <==> RunFits(b, s[1..], k)
  {
    hide Glob;
    if k + 1 <= |s| {
      assert s[..k + 1] == [s[0]] + s[1..][..k] && s[k + 1..] == s[1..][k..];
    }
  }

  lemma RunStart(b: string, s: string)
    ensures RunFits(b, s, 0) <==> Glob(b, s)
    ensures s == [] || s[0] == '/' ==> forall k: nat :: RunFits(b, s, k) ==> k == 0
  {
    hide Glob;
    assert s[0..] == s && s[..0] == [];
    if s != [] && s[0] == '/' {
      forall k: nat ensures RunFits(b, s, k) ==> k == 0 {
        assert 0 < k <= |s| ==> s[..k][0] == '/' && s[..k][0] in s[..k];
      }
    }
  }

  /** A star stands for any run of characters without a slash, and for nothing else. */
  lemma {:induction false} GlobStar(b: string, s: string)
    ensures Glob("*" + b, s) <==> exists k: nat :: RunFits(b, s, k)
    decreases |s|
  {
    assert ("*" + b)[1..] == b;
    assert Glob("*" + b, s) <==> Glob(b, s) || (s != [] && s[0] != '/' && Glob("*" + b, s[1..]));
    hide Glob, RunFits;
    RunStart(b, s);
    if s != [] && s[0] != '/' {
      GlobStar(b, s[1..]);
      forall k: nat ensures RunFits(b, s, k + 1) <==> RunFits(b, s[1..], k) {
        RunShift(b, s, k);
      }
      if k: nat :| RunFits(b, s, k) {
        assert k > 0 ==> RunFits(b, s[1..], k - 1);
      }
      if k: nat :| RunFits(b, s[1..], k) {
        assert RunFits(b, s, k + 1);
      }
    }
  }

  lemma JoinIsTail(q: Path)
    requires q != []
    ensures Render(q) == "/" + Join(q, "/")
  {
    if |q| > 1 {
      var rest: Path := q[1..];
      JoinIsTail(rest);
      assert Tail(q) == "/" + q[0] + Tail(rest);
    } else {
      assert Tail(q) == "/" + q[0] + Tail(q[1..]) && q[1..] == [];
    }
  }

  lemma UnderExactly(q: Path, d: Path)
    requires q != [] && d != []
    ensures Under(Join(q, "/"), Join(d, "/")) <==> d <= q
  {
    var x, y := Join(q, "/"), Join(d, "/");
    JoinIsTail(q);
    JoinIsTail(d);
    InsideExactly(q, d);
    hide Render, Join;
    StripPrefix("/", x, y + "/");
    assert "/" + (y + "/") == "/" + y + "/";
    assert "/" + x == "/" + y ==> x == y by {
      if "/" + x == "/" + y { assert ("/" + x)[1..] == x && ("/" + y)[1..] == y; }
    }
  }

  lemma SlashesKeep(s: string)
    requires '\\' !in s
    ensures Slashes(s) == s
  {
    assert forall i | 0 <= i < |s| :: s[i] in s;
  }

  predicate PlainText(s: string) {
    '\\' !in s && '*' !in s
  }

  lemma {:induction false} JoinEnds(d: Path)
    requires d != []
    ensures Join(d, "/") != [] && Join(d, "/")[|Join(d, "/")| - 1] != '/'
  {
    if |d| > 1 {
      var rest: Path := d[1..];
      JoinEnds(rest);
    } else {
      var s := d[0];
      assert s[|s| - 1] in s;
    }
  }

  /** A denied directory, written plainly, with a slash or with a slash and a star, denies exactly itself and
      what lies below it. */
  lemma DeniesExactly(host: Host, q: Path, d: Path)
    requires q != [] && d != [] && '\\' !in Join(q, "/") && PlainText(Join(d, "/"))
    ensures MatchesDeny(host, Join(q, "/"), Join(d, "/")) <==> d <= q
    ensures MatchesDeny(host, Join(q, "/"), Join(d, "/") + "/") <==> d <= q
    ensures MatchesDeny(host, Join(q, "/"), Join(d, "/") + "/*") <==> d <= q
  {
    UnderExactly(q, d);
    JoinEnds(d);
    hide Join, Under;
    DenyForms(host, Join(q, "/"), Join(d, "/"));
  }

  lemma DenyForms(host: Host, x: string, y: string)
    requires '\\' !in x && PlainText(y) && y != [] && y[|y| - 1] != '/'
    ensures MatchesDeny(host, x, y) == Under(x, y)
    ensures MatchesDeny(host, x, y + "/") == Under(x, y)
    ensures MatchesDeny(host, x, y + "/*") == Under(x, y)
  {
    hide Under, Glob;
    SlashesKeep(x);
    SlashesKeep(y);
    SlashesKeep(y + "/");
    SlashesKeep(y + "/*");
    hide Slashes;
    EndOf(y, "/");
    EndOf(y, "/*");
    assert !EndsWith(y, "/") && !EndsWith(y, "/*") by {
      NoSlashEnd(y);
    }
    assert !EndsWith(y + "/", "/*") by { assert (y + "/")[|y|] == '/'; }
  }

  lemma EndOf(y: string, e: string)
    ensures EndsWith(y + e, e) && (y + e)[..|y + e| - |e|] == y
  {
  }

  lemma NoSlashEnd(y: string)
    requires y != [] && y[|y| - 1] != '/' && '*' !in y
    ensures !EndsWith(y, "/") && !EndsWith(y, "/*")
  {
    assert y[|y| - 1] in y;
  }
}
