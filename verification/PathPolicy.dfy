/** Path authorisation: percent decoding, traversal checks, symlink-aware canonicalisation and containment. */
module PathPolicy {
  import opened Strings
  import opened Governance
  import opened PathNames
  import opened CommandPolicy

  /** The file system as the policy sees it. `realpath` may fail; a successful answer is normalised. */
  datatype FileSystem = FileSystem(present: string -> bool, realpath: string -> Option<Path>)

  /** `isSecret` stands for the secret path patterns. `regex` tells whether a denied pattern that is a regular
      expression of its own matches a path; it is true as well where the engine rejects the pattern, because
      then the decision throws and nothing is allowed. */
  datatype Host = Host(cwd: Path, fs: FileSystem, isSecret: string -> bool, regex: (string, string) -> bool)

  // ---- Percent decoding, section 2.1 of RFC 3986 ----

  predicate IsHex(c: char) {
    IsDigit(c) || 'a' <= c <= 'f' || 'A' <= c <= 'F'
  }

  function HexValue(c: char): (n: nat)
    requires IsHex(c)
    ensures n < 16
  {
    if IsDigit(c) then (c - '0') as int else if 'a' <= c <= 'f' then 10 + (c - 'a') as int else 10 + (c - 'A') as int
  }

  function DecodePercent(s: string): string {
    if s == [] then []
    else if |s| >= 3 && s[0] == '%' && IsHex(s[1]) && IsHex(s[2]) then
      [(16 * HexValue(s[1]) + HexValue(s[2])) as char] + DecodePercent(s[3..])
    else [s[0]] + DecodePercent(s[1..])
  }

  function HexDigit(n: nat): (c: char)
    requires n < 16
    ensures IsHex(c) && HexValue(c) == n
  {
    if n < 10 then '0' + n as char else 'A' + (n - 10) as char
  }

  /** Every character of the text as a percent triplet. */
  function EncodePercent(s: string): string
    requires forall i | 0 <= i < |s| :: s[i] as int < 256
  {
    if s == [] then []
    else ['%', HexDigit(s[0] as int / 16), HexDigit(s[0] as int % 16)] + EncodePercent(s[1..])
  }

  lemma {:induction false} DecodeInvertsEncode(s: string)
    requires forall i | 0 <= i < |s| :: s[i] as int < 256
    ensures DecodePercent(EncodePercent(s)) == s
  {
    if s == [] {
    } else {
      DecodeInvertsEncode(s[1..]);
      var t := EncodePercent(s);
      assert t[3..] == EncodePercent(s[1..]);
      assert 16 * (s[0] as int / 16) + s[0] as int % 16 == s[0] as int;
      assert [s[0]] + s[1..] == s;
    }
  }

  function Slashes(s: string): string {
    seq(|s|, i requires 0 <= i < |s| => if s[i] == '\\' then '/' else s[i])
  }

  // ---- Canonicalisation ----

  /** The canonical path of `segments`, reached segment by segment from `canon`. */
  function CanonFrom(fs: FileSystem, canon: Path, segments: Path): Option<Path>
    decreases |segments|
  {
    if segments == [] then Some(canon)
    else
      var candidate: Path := canon + [segments[0]];
      if fs.present(Render(candidate)) then
        match fs.realpath(Render(candidate))
        case None => None
        case Some(actual) => CanonFrom(fs, actual, segments[1..])
      else CanonFrom(fs, candidate, segments[1..])
  }

  function Canonical(fs: FileSystem, p: Path): Option<Path> {
    if fs.present(Render(p)) then fs.realpath(Render(p)) else CanonFrom(fs, [], p)
  }

  function RenderOption(p: Option<Path>): Option<string> {
    match p
    case None => None
    case Some(segments) => Some(Render(segments))
  }

  lemma {:induction false} TailExtend(p: seq<string>, last: string)
    ensures Tail(p + [last]) == Tail(p) + "/" + last
  {
    if p == [] {
    } else {
      assert (p + [last])[1..] == p[1..] + [last];
      TailExtend(p[1..], last);
    }
  }

  method CanonicalizePath(fs: FileSystem, p: string, ghost path: Path) returns (r: Option<string>)
    requires p == Render(path)
    ensures r == RenderOption(Canonical(fs, path))
  {
    if fs.present(p) {
      var actual := fs.realpath(p);
      return if actual.None? then None else Some(Render(actual.value));
    }
    var segments := Segments(p);
    SegmentsInvertRender(path);
    RenderRoot();
    hide Render, Segments;
    var canon := "/";
    ghost var at: Path := [];
    for i := 0 to |segments|
      invariant canon == Render(at)
      invariant CanonFrom(fs, at, path[i..]) == CanonFrom(fs, [], path)
    {
      var seg := segments[i];
      var candidate := if canon == "/" then "/" + seg else canon + "/" + seg;
      CandidateIsRendered(at, seg);
      assert path[i..][1..] == path[i + 1..];
      if fs.present(candidate) {
        var actual := fs.realpath(candidate);
        if actual.None? {
          return None;
        }
        canon := Render(actual.value);
        at := actual.value;
      } else {
        canon := candidate;
        at := at + [seg];
      }
    }
    r := Some(canon);
  }

  lemma RenderRoot()
    ensures Render([]) == "/"
  {
  }

  lemma CandidateIsRendered(at: Path, seg: string)
    requires ProperSegment(seg)
    ensures Normal(at + [seg])
    ensures Render(at + [seg]) == (if Render(at) == "/" then "/" + seg else Render(at) + "/" + seg)
  {
    TailExtend(at, seg);
    SegmentsInvertRender(at);
    SegmentsInvertRender([]);
  }

  // ---- normalizePath ----

  datatype Normalized = Normalized(path: string, insideRoot: bool)

  predicate HasControl(s: string) {
    exists i | 0 <= i < |s| :: s[i] as int < 32 || s[i] as int == 127
  }

  function Depth(segments: seq<string>): int {
    if segments == [] then 0
    else Depth(segments[..|segments| - 1])
         + (if segments[|segments| - 1] == ".." then -1 else if segments[|segments| - 1] == "." then 0 else 1)
  }

  /** The textual screens in front of path resolution. */
  predicate Screened(requested: string) {
    var slashed := Slashes(DecodePercent(requested));
    && !HasControl(slashed) && !Contains(requested, "%0")
    && Depth(Segments(slashed)) >= 0
  }

  method NormalizePath(host: Host, requested: string, allowedRoot: string) returns (r: Normalized)
    ensures r == NormalizeSpec(host, requested, allowedRoot)
  {
    var slashed := Slashes(DecodePercent(requested));
    if '\0' in slashed || Contains(requested, "%00") || Contains(requested, "%0") {
      ZeroIsScreened(requested, slashed);
      return Normalized(slashed, false);
    }
    if HasControl(slashed) {
      return Normalized(slashed, false);
    }
    var segments := Segments(slashed);
    var depth := 0;
    for i := 0 to |segments|
      invariant depth == Depth(segments[..i])
    {
      assert segments[..i + 1][..i] == segments[..i];
      if segments[i] == ".." {
        depth := depth - 1;
      } else if segments[i] != "." {
        depth := depth + 1;
      }
    }
    assert segments[..|segments|] == segments;
    if depth < 0 {
      return Normalized(slashed, false);
    }
    var root := Resolve(host.cwd, allowedRoot);
    var resolvedRoot := Render(root);
    var path := Resolve(root, slashed);
    var normalized := Render(path);
    if !InsideString(normalized, resolvedRoot) {
      return Normalized(normalized, false);
    }
    var canonical := CanonicalizePath(host.fs, normalized, path);
    if canonical.None? {
      return Normalized(normalized, false);
    }
    var canonicalRoot := CanonicalizePath(host.fs, resolvedRoot, root);
    if canonicalRoot.None? {
      return Normalized(normalized, false);
    }
    if !InsideString(canonical.value, canonicalRoot.value) {
      return Normalized(canonical.value, false);
    }
    return Normalized(canonical.value, true);
  }

  lemma ZeroIsScreened(requested: string, slashed: string)
    requires '\0' in slashed || Contains(requested, "%00") || Contains(requested, "%0")
    ensures HasControl(slashed) || Contains(requested, "%0")
  {
    if Contains(requested, "%00") {
      var i :| 0 <= i <= |requested| && At(requested, i, "%00");
      assert requested[i..i + 2] == requested[i..i + 3][..2];
      assert At(requested, i, "%0");
    }
  }

  function NormalizeSpec(host: Host, requested: string, allowedRoot: string): Normalized {
    var slashed := Slashes(DecodePercent(requested));
    if !Screened(requested) then Normalized(slashed, false)
    else
      var root := Resolve(host.cwd, allowedRoot);
      var path := Resolve(root, slashed);
      if !InsideString(Render(path), Render(root)) then Normalized(Render(path), false)
      else
        match (Canonical(host.fs, path), Canonical(host.fs, root))
        case (Some(c), Some(r)) => Normalized(Render(c), InsideString(Render(c), Render(r)))
        case (_, _) => Normalized(Render(path), false)
  }

  // ---- Deny patterns ----

  /** `*` stands for any run of characters without a slash. */
  predicate Glob(pattern: string, s: string)
    decreases |pattern|, |s|
  {
    if pattern == [] then s == []
    else if pattern[0] == '*' then
      Glob(pattern[1..], s) || (s != [] && s[0] != '/' && Glob(pattern, s[1..]))
    else s != [] && s[0] == pattern[0] && Glob(pattern[1..], s[1..])
  }

  predicate Under(path: string, prefix: string) {
    path == prefix || StartsWith(path, prefix + "/")
  }

  /** A character with a meaning in regular expressions, other than the two that are translated. */
  predicate IsRegexSyntax(c: char) {
    c in ['^', '$', '+', '?', '(', ')', '[', ']', '{', '}', '|']
  }

  predicate MatchesDeny(host: Host, relative: string, denied: string) {
    var path, pattern := Slashes(relative), Slashes(denied);
    if EndsWith(pattern, "/*") then Under(path, pattern[..|pattern| - 2])
    else if EndsWith(pattern, "/") then Under(path, pattern[..|pattern| - 1])
    else if '*' in pattern then
      if exists c | c in pattern :: IsRegexSyntax(c) then host.regex(pattern, path) else Glob(pattern, path)
    else Under(path, pattern)
  }

  // ---- evaluatePathAction ----

  datatype PathRequest = PathRequest(
    profile: Profile, action: Action, requestedPath: Option<string>, homeDir: Option<string>, policy: Policy)

  datatype PathDecision = PathDecision(allowed: bool, reasonCode: ReasonCode, normalizedPath: Option<string>)

  predicate HomeDenied(host: Host, homeDir: Option<string>, path: string) {
    homeDir.Some? && homeDir.value != []
    && var home := Render(Resolve(host.cwd, homeDir.value));
       && StartsWith(path, home)
       && (path == home || Contains(path, ".ssh") || Contains(path, ".gnupg") || Contains(path, ".aws")
           || Contains(path, ".config/gh") || Contains(path, ".config/hub"))
  }

  predicate ExplicitlyDenied(host: Host, root: seq<string>, path: seq<string>, deniedPaths: seq<string>) {
    exists i | 0 <= i < |deniedPaths| :: MatchesDeny(host, Relative(root, path), deniedPaths[i])
  }

  /** The profile rules: the builder may do anything in its worktree, the others may read in it. */
  function ProfilePath(profile: Profile, action: Action, path: string, worktreeRoot: string): PathDecision {
    var inside := InsideString(path, worktreeRoot);
    match profile
    case BUILDER =>
      if inside then PathDecision(true, POLICY_ALLOWED, Some(path))
      else PathDecision(false, PATH_OUTSIDE_ALLOWED_ROOT, Some(path))
    case REVIEWER =>
      if !action.READ_FILE? then PathDecision(false, REVIEWER_WRITE_DENIED, Some(path))
      else if inside then PathDecision(true, POLICY_ALLOWED, Some(path))
      else PathDecision(false, PATH_OUTSIDE_ALLOWED_ROOT, Some(path))
    case _ =>
      if action.READ_FILE? && inside then PathDecision(true, POLICY_ALLOWED, Some(path))
      else PathDecision(false, PATH_OUTSIDE_ALLOWED_ROOT, Some(path))
  }

  function EvaluatePath(host: Host, req: PathRequest): PathDecision {
    if req.requestedPath.None? || req.requestedPath.value == [] then
      PathDecision(false, PATH_OUTSIDE_ALLOWED_ROOT, req.requestedPath)
    else
      var n := NormalizeSpec(host, req.requestedPath.value, req.policy.allowedRoot);
      if !n.insideRoot then
        if Contains(req.requestedPath.value, "..") || Contains(n.path, "..")
        then PathDecision(false, PATH_TRAVERSAL_REJECTED, Some(n.path))
        else PathDecision(false, PATH_OUTSIDE_ALLOWED_ROOT, Some(n.path))
      else if HomeDenied(host, req.homeDir, n.path) then PathDecision(false, HOME_ACCESS_DENIED, Some(n.path))
      else if host.isSecret(n.path) then PathDecision(false, SECRET_ACCESS_DENIED, Some(n.path))
      else
        var root := Resolve(host.cwd, req.policy.allowedRoot);
        if ExplicitlyDenied(host, root, Segments(n.path), req.policy.deniedPaths)
        then PathDecision(false, PATH_EXPLICITLY_DENIED, Some(n.path))
        else ProfilePath(req.profile, req.action, n.path, Render(root))
  }

  // ---- What an allowed path action guarantees ----

  /** Containment stated on segment lists alone: the resolved request and its canonical form lie inside
      the resolved root and the canonical root. */
  predicate Contained(host: Host, requested: string, allowedRoot: string, c: Path) {
    var root := Resolve(host.cwd, allowedRoot);
    var path := Resolve(root, Slashes(DecodePercent(requested)));
    && Screened(requested)
    && Inside(path, root)
    && Canonical(host.fs, path) == Some(c)
    && Canonical(host.fs, root).Some?
    && Inside(c, Canonical(host.fs, root).value)
    && Inside(c, root)
  }

  /** The other conditions, again on the canonical segment list. */
  predicate Permitted(host: Host, req: PathRequest, c: Path) {
    var root := Resolve(host.cwd, req.policy.allowedRoot);
    && !HomeDenied(host, req.homeDir, Render(c))
    && !host.isSecret(Render(c))
    && (forall i | 0 <= i < |req.policy.deniedPaths| ::
          !MatchesDeny(host, Join(if root <= c then c[|root|..] else c, "/"), req.policy.deniedPaths[i]))
    && (req.action.READ_FILE? || req.profile.BUILDER?)
  }

  lemma NormalizedInsideExactly(host: Host, requested: string, allowedRoot: string)
    ensures NormalizeSpec(host, requested, allowedRoot).insideRoot <==>
            var root := Resolve(host.cwd, allowedRoot);
            var path := Resolve(root, Slashes(DecodePercent(requested)));
            Screened(requested) && Inside(path, root) && Canonical(host.fs, path).Some? && Canonical(host.fs, root).Some?
            && Inside(Canonical(host.fs, path).value, Canonical(host.fs, root).value)
  {
    var root := Resolve(host.cwd, allowedRoot);
    var path := Resolve(root, Slashes(DecodePercent(requested)));
    InsideExactly(path, root);
    if Canonical(host.fs, path).Some? && Canonical(host.fs, root).Some? {
      InsideExactly(Canonical(host.fs, path).value, Canonical(host.fs, root).value);
    }
  }

  /** A path action is allowed exactly when its canonical path extends both roots segment by segment
      and no other rule forbids it; the decision reports that canonical path. */
  lemma PathDecisionExactly(host: Host, req: PathRequest)
    ensures EvaluatePath(host, req).allowed <==>
            && req.requestedPath.Some? && req.requestedPath.value != []
            && exists c: Path ::
                 Contained(host, req.requestedPath.value, req.policy.allowedRoot, c) && Permitted(host, req, c)
  {
    if req.requestedPath.Some? && req.requestedPath.value != [] {
      var requested := req.requestedPath.value;
      var root := Resolve(host.cwd, req.policy.allowedRoot);
      var path := Resolve(root, Slashes(DecodePercent(requested)));
      NormalizedInsideExactly(host, requested, req.policy.allowedRoot);
      if NormalizeSpec(host, requested, req.policy.allowedRoot).insideRoot {
        var c := Canonical(host.fs, path).value;
        CanonicalDecision(host, req, c);
        assert forall d: Path | Contained(host, requested, req.policy.allowedRoot, d) :: d == c;
      }
    }
  }

  /** The canonical path behind an allowed decision, with everything it guarantees. */
  lemma AllowedPathIsContained(host: Host, req: PathRequest) returns (c: Path)
    requires EvaluatePath(host, req).allowed
    ensures EvaluatePath(host, req).normalizedPath == Some(Render(c))
    ensures Resolve(host.cwd, req.policy.allowedRoot) <= c
    ensures Canonical(host.fs, Resolve(host.cwd, req.policy.allowedRoot)).Some?
    ensures Canonical(host.fs, Resolve(host.cwd, req.policy.allowedRoot)).value <= c
    ensures forall i | 0 <= i < |req.policy.deniedPaths| ::
              !MatchesDeny(host, Join(c[|Resolve(host.cwd, req.policy.allowedRoot)|..], "/"), req.policy.deniedPaths[i])
    ensures !req.action.READ_FILE? ==> req.profile.BUILDER?
  {
    PathDecisionExactly(host, req);
    c :| Contained(host, req.requestedPath.value, req.policy.allowedRoot, c) && Permitted(host, req, c);
    NormalizedInsideExactly(host, req.requestedPath.value, req.policy.allowedRoot);
    CanonicalDecision(host, req, c);
  }

  lemma CanonicalDecision(host: Host, req: PathRequest, c: Path)
    requires req.requestedPath.Some? && req.requestedPath.value != []
    requires NormalizeSpec(host, req.requestedPath.value, req.policy.allowedRoot) == Normalized(Render(c), true)
    ensures EvaluatePath(host, req).allowed <==>
            Inside(c, Resolve(host.cwd, req.policy.allowedRoot)) && Permitted(host, req, c)
    ensures EvaluatePath(host, req).normalizedPath == Some(Render(c))
  {
    hide MatchesDeny, HomeDenied, NormalizeSpec, InsideString, ExplicitlyDenied, ProfilePath, Resolve, Render, Segments, Contains;
    var root := Resolve(host.cwd, req.policy.allowedRoot);
    SegmentsInvertRender(c);
    InsideExactly(c, root);
    ProfileExactly(req.profile, req.action, Render(c), Render(root));
    if root <= c {
      DeniedExactly(host, root, c, req.policy.deniedPaths);
    }
  }

  lemma ProfileExactly(profile: Profile, action: Action, path: string, worktreeRoot: string)
    ensures ProfilePath(profile, action, path, worktreeRoot).allowed <==>
            InsideString(path, worktreeRoot) && (action.READ_FILE? || profile.BUILDER?)
    ensures ProfilePath(profile, action, path, worktreeRoot).normalizedPath == Some(path)
  {
  }

  lemma DeniedExactly(host: Host, root: seq<string>, c: seq<string>, deniedPaths: seq<string>)
    requires root <= c
    ensures ExplicitlyDenied(host, root, c, deniedPaths) <==>
            !(forall i | 0 <= i < |deniedPaths| :: !MatchesDeny(host, Join(c[|root|..], "/"), deniedPaths[i]))
  {
    hide MatchesDeny;
    RelativeIsSuffix(root, c);
  }
}
