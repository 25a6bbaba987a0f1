/** The known secret shapes of the output boundary: what each pattern matches, what its global replacement
    cuts, and what is left of any shape once all of them have been replaced in turn. */
module SecretShapes {
  import opened Strings
  import opened Redaction
  import opened ShellScanners

  datatype Shape = PrivateKey | Bearer | Basic | Jwt | StripeKey | GitHubToken | SlackToken | AwsKey

  // ---- Characters ----

  predicate IsAlnum(c: char) {
    'a' <= c <= 'z' || 'A' <= c <= 'Z' || IsDigit(c)
  }

  /** `\w` */
  predicate IsWord(c: char) {
    IsAlnum(c) || c == '_'
  }

  predicate IsUpper(c: char) {
    'A' <= c <= 'Z' || IsDigit(c)
  }

  predicate IsTokenChar(c: char) {
    IsAlnum(c) || c in "._-"
  }

  predicate IsBase64(c: char) {
    IsAlnum(c) || c in "+/="
  }

  predicate IsSlackChar(c: char) {
    IsAlnum(c) || c == '-'
  }

  predicate All(s: string, test: char -> bool) {
    forall c | c in s :: test(c)
  }

  /** A word character just before position `i`, and one just after it. */
  predicate WordBefore(s: string, i: nat) {
    0 < i <= |s| && IsWord(s[i - 1])
  }

  predicate WordAfter(s: string, i: nat) {
    i < |s| && IsWord(s[i])
  }

  /** `\b` */
  predicate Boundary(s: string, i: nat) {
    WordBefore(s, i) != WordAfter(s, i)
  }

  /** Not inside a word. */
  predicate Edge(s: string, i: nat) {
    !(WordBefore(s, i) && WordAfter(s, i))
  }

  // ---- Tokens ----

  /** A prefix, then at least `least` characters of one class. */
  predicate Prefixed(w: string, prefix: string, test: char -> bool, least: nat) {
    StartsWith(w, prefix) && |w| >= |prefix| + least && All(w[|prefix|..], test)
  }

  const STRIPE := ["sk_live_", "sk_test_", "pk_live_", "pk_test_"]
  const GITHUB := ["ghp_", "gho_", "ghs_", "ghr_"]
  const SLACK := ["xoxb-", "xoxp-", "xoxs-", "xoxa-"]

  predicate OneOf(w: string, prefixes: seq<string>, test: char -> bool, least: nat) {
    exists k | 0 <= k < |prefixes| :: Prefixed(w, prefixes[k], test, least)
  }

  /** A keyword, white space, then at least twenty characters of one class. */
  predicate Keyed(w: string, keyword: string, test: char -> bool) {
    && StartsWith(w, keyword)
    && exists a | |keyword| < a <= |w| - 20 :: AllSpaces(w[|keyword|..a]) && All(w[a..], test)
  }

  /** Words with white space between them. */
  predicate Spaced(w: string, words: seq<string>)
    decreases |words|
  {
    && words != []
    && if |words| == 1 then w == words[0]
       else
         && StartsWith(w, words[0])
         && exists a | |words[0]| < a <= |w| :: AllSpaces(w[|words[0]|..a]) && Spaced(w[a..], words[1..])
  }

  const HEADERS := [["-----BEGIN", "PRIVATE", "KEY-----"], ["-----BEGIN", "RSA", "PRIVATE", "KEY-----"],
                    ["-----BEGIN", "EC", "PRIVATE", "KEY-----"], ["-----BEGIN", "RSA", "EC", "PRIVATE", "KEY-----"]]

  predicate Header(w: string) {
    exists k | 0 <= k < |HEADERS| :: Spaced(w, HEADERS[k])
  }

  predicate Footer(w: string) {
    || Spaced(w, ["-----END", "PRIVATE", "KEY-----"])
    || exists a, b | 0 <= a < b <= |w| :: All(w[a..b], IsUpper) && Spaced(w, ["-----END", w[a..b], "PRIVATE", "KEY-----"])
  }

  /** The text a pattern matches; of a private key the header that a match starts with. */
  predicate Token(shape: Shape, w: string) {
    match shape
    case PrivateKey => Header(w)
    case Bearer => Keyed(w, "Bearer", IsTokenChar)
    case Basic => Keyed(w, "Basic", IsBase64)
    case Jwt => Prefixed(w, "eyJhbGciOi", IsTokenChar, 6) && exists a | 11 <= a <= |w| - 5 :: At(w, a, ".eyJ")
    case StripeKey => OneOf(w, STRIPE, IsAlnum, 16)
    case GitHubToken => OneOf(w, GITHUB, IsAlnum, 20)
    case SlackToken => OneOf(w, SLACK, IsSlackChar, 10)
    case AwsKey => Prefixed(w, "AKIA", IsUpper, 16) && |w| == 20
  }

  predicate Opens(shape: Shape) { !shape.PrivateKey? }

  predicate Closes(shape: Shape) { !shape.PrivateKey? && !shape.Jwt? }

  predicate Occurs(shape: Shape, s: string, i: nat, j: nat) {
    && i < j <= |s| && (Opens(shape) ==> Boundary(s, i)) && (Closes(shape) ==> Boundary(s, j))
    && Token(shape, s[i..j])
  }

  /** The text shows the shape somewhere. */
  predicate Exposed(shape: Shape, s: string) {
    exists i, j | 0 <= i < j <= |s| :: Occurs(shape, s, i, j)
  }

  // ---- What the global replacement of a pattern cuts ----

  /** The last end at most `j` of a match that starts at `i`, or `i`: matching is greedy. */
  function LastEnd(shape: Shape, s: string, i: nat, j: nat): (e: nat)
    requires i <= j <= |s|
    ensures i <= e <= j
  {
    if i < j && !Occurs(shape, s, i, j) then LastEnd(shape, s, i, j - 1) else j
  }

  lemma {:induction false} LastEndIsLast(shape: Shape, s: string, i: nat, j: nat)
    requires i <= j <= |s|
    ensures var e := LastEnd(shape, s, i, j);
            (e > i ==> Occurs(shape, s, i, e)) && forall k | e < k <= j :: !Occurs(shape, s, i, k)
    decreases j
  {
    hide Occurs;
    if i < j && !Occurs(shape, s, i, j) {
      LastEndIsLast(shape, s, i, j - 1);
    }
  }

  predicate FooterBefore(s: string, from: nat, e: nat)
    requires e <= |s|
  {
    exists p | from <= p < e :: Footer(s[p..e])
  }

  lemma FooterBeforeEnds(s: string, from: nat, e: nat)
    requires e <= |s| && FooterBefore(s, from, e)
    ensures e > 0 && s[e - 1] == '-'
  {
    hide Footer;
    var p :| from <= p < e && Footer(s[p..e]);
    FooterEnds(s[p..e]);
    assert s[p..e][e - p - 1] == s[e - 1];
  }

  /** The end of the first footer after `from`, or of the text: this part of the match is lazy. */
  function FooterEnd(s: string, from: nat, e: nat): (r: nat)
    requires from <= e <= |s|
    ensures e <= r <= |s| && (r < |s| ==> r > 0 && s[r - 1] == '-')
    decreases |s| - e
  {
    if FooterBefore(s, from, e) then FooterBeforeEnds(s, from, e); e
    else if e == |s| then e
    else FooterEnd(s, from, e + 1)
  }

  /** Where the match that starts at `i` ends, or `i` when there is none. */
  function MatchEnd(shape: Shape, s: string, i: nat): (e: nat)
    requires i <= |s|
    ensures i <= e <= |s|
  {
    var j := LastEnd(shape, s, i, |s|);
    if j > i && shape.PrivateKey? then FooterEnd(s, j, j) else j
  }

  /** The cuts from position `i` on, where the last cut ended at `from`. */
  function Scanned(shape: Shape, s: string, from: nat, i: nat): seq<(nat, nat)>
    requires from <= i <= |s|
    decreases |s| - i
  {
    if i == |s| then []
    else
      var e := MatchEnd(shape, s, i);
      if e == i then Scanned(shape, s, from, i + 1) else [(i - from, e - i)] + Scanned(shape, s, e, e)
  }

  function PatternOf(shape: Shape): Pattern {
    s => Scanned(shape, s, 0, 0)
  }

  const SHAPES := [PrivateKey, Bearer, Basic, Jwt, StripeKey, GitHubToken, SlackToken, AwsKey]

  function PatternsOf(shapes: seq<Shape>): (patterns: seq<Pattern>)
    ensures |patterns| == |shapes| && forall k | 0 <= k < |shapes| :: patterns[k] == PatternOf(shapes[k])
  {
    if shapes == [] then [] else [PatternOf(shapes[0])] + PatternsOf(shapes[1..])
  }

  // ---- Tokens hold no bracket and no ellipsis, and are longer than the marker's word ----

  predicate Unmarked(w: string) {
    '[' !in w && ']' !in w && '\U{2026}' !in w
  }

  lemma UnmarkedParts(u: string, v: string)
    ensures Unmarked(u + v) <==> Unmarked(u) && Unmarked(v)
  {
  }

  lemma SpacesUnmarked(w: string)
    requires AllSpaces(w)
    ensures Unmarked(w)
  {
  }

  lemma ClassUnmarked(w: string, test: char -> bool)
    requires All(w, test) && !test('[') && !test(']') && !test('\U{2026}')
    ensures Unmarked(w)
  {
  }

  lemma PrefixedUnmarked(w: string, prefix: string, test: char -> bool, least: nat)
    requires Prefixed(w, prefix, test, least) && Unmarked(prefix) && !test('[') && !test(']') && !test('\U{2026}')
    ensures Unmarked(w) && |w| >= |prefix| + least
  {
    assert w == prefix + w[|prefix|..];
    ClassUnmarked(w[|prefix|..], test);
    UnmarkedParts(prefix, w[|prefix|..]);
  }

  lemma KeyedUnmarked(w: string, keyword: string, test: char -> bool)
    requires Keyed(w, keyword, test) && Unmarked(keyword) && !test('[') && !test(']') && !test('\U{2026}')
    ensures Unmarked(w) && |w| > 20
  {
    var n := |keyword|;
    var a :| n < a <= |w| - 20 && AllSpaces(w[n..a]) && All(w[a..], test);
    assert w == keyword + (w[n..a] + w[a..]);
    SpacesUnmarked(w[n..a]);
    ClassUnmarked(w[a..], test);
    UnmarkedParts(w[n..a], w[a..]);
    UnmarkedParts(keyword, w[n..a] + w[a..]);
  }

  lemma {:induction false} SpacedUnmarked(w: string, words: seq<string>)
    requires Spaced(w, words) && forall x | x in words :: Unmarked(x)
    ensures Unmarked(w) && |w| >= |words[0]| + |words| - 1
    decreases |words|
  {
    if |words| == 1 {
      assert words[0] in words;
    } else {
      var n := |words[0]|;
      var a :| n < a <= |w| && AllSpaces(w[n..a]) && Spaced(w[a..], words[1..]);
      SpacedUnmarked(w[a..], words[1..]);
      assert words[0] in words && w == words[0] + (w[n..a] + w[a..]);
      SpacesUnmarked(w[n..a]);
      UnmarkedParts(w[n..a], w[a..]);
      UnmarkedParts(words[0], w[n..a] + w[a..]);
    }
  }

  lemma FooterEnds(w: string)
    requires Footer(w)
    ensures w != [] && w[|w| - 1] == '-'
  {
    if Spaced(w, ["-----END", "PRIVATE", "KEY-----"]) {
      SpacedEnds(w, ["-----END", "PRIVATE", "KEY-----"]);
    } else {
      var a, b :| 0 <= a < b <= |w| && Spaced(w, ["-----END", w[a..b], "PRIVATE", "KEY-----"]);
      SpacedEnds(w, ["-----END", w[a..b], "PRIVATE", "KEY-----"]);
    }
  }

  lemma {:induction false} SpacedEnds(w: string, words: seq<string>)
    requires Spaced(w, words) && words[|words| - 1] == "KEY-----"
    ensures w != [] && w[|w| - 1] == '-'
    decreases |words|
  {
    if |words| > 1 {
      var n := |words[0]|;
      var a :| n < a <= |w| && AllSpaces(w[n..a]) && Spaced(w[a..], words[1..]);
      SpacedEnds(w[a..], words[1..]);
    }
  }

  lemma OneOfUnmarked(w: string, prefixes: seq<string>, test: char -> bool, least: nat)
    requires OneOf(w, prefixes, test, least) && least > 8 && !test('[') && !test(']') && !test('\U{2026}')
    requires forall k | 0 <= k < |prefixes| :: Unmarked(prefixes[k])
    ensures Unmarked(w) && |w| > 8
  {
    hide Prefixed, Unmarked;
    var k :| 0 <= k < |prefixes| && Prefixed(w, prefixes[k], test, least);
    PrefixedUnmarked(w, prefixes[k], test, least);
  }

  lemma HeaderUnmarked(w: string)
    requires Header(w)
    ensures Unmarked(w) && |w| > 8 && w[0] == '-'
  {
    hide Spaced;
    var k :| 0 <= k < |HEADERS| && Spaced(w, HEADERS[k]);
    HeadersUnmarked(k);
    SpacedUnmarked(w, HEADERS[k]);
    SpacedStarts(w, HEADERS[k]);
  }

  lemma HeadersUnmarked(k: nat)
    requires k < |HEADERS|
    ensures HEADERS[k] != [] && HEADERS[k][0] == "-----BEGIN" && forall x | x in HEADERS[k] :: Unmarked(x)
  {
  }

  lemma SpacedStarts(w: string, words: seq<string>)
    requires Spaced(w, words) && words[0] != []
    ensures w != [] && w[0] == words[0][0]
  {
    assert StartsWith(w, words[0]) ==> w[0] == w[0..|words[0]|][0];
  }

  lemma PrefixesUnmarked()
    ensures forall k | 0 <= k < 4 :: Unmarked(STRIPE[k]) && Unmarked(GITHUB[k]) && Unmarked(SLACK[k])
  {
  }

  /** Of every shape. */
  lemma TokenUnmarked(shape: Shape, w: string)
    requires Token(shape, w)
    ensures Unmarked(w) && |w| > 8
    ensures shape.PrivateKey? ==> w[0] == '-'
  {
    hide Prefixed, Keyed, OneOf, Header;
    PrefixesUnmarked();
    match shape
    case PrivateKey => HeaderUnmarked(w);
    case Bearer => KeyedUnmarked(w, "Bearer", IsTokenChar);
    case Basic => KeyedUnmarked(w, "Basic", IsBase64);
    case Jwt => PrefixedUnmarked(w, "eyJhbGciOi", IsTokenChar, 6);
    case StripeKey => OneOfUnmarked(w, STRIPE, IsAlnum, 16);
    case GitHubToken => OneOfUnmarked(w, GITHUB, IsAlnum, 20);
    case SlackToken => OneOfUnmarked(w, SLACK, IsSlackChar, 10);
    case AwsKey => PrefixedUnmarked(w, "AKIA", IsUpper, 16);
  }

  // ---- Occurrences in parts of a text ----

  /** What is found in a part of a text that starts and ends outside words is found in the text. */
  lemma SliceOccurs(shape: Shape, s: string, a: nat, b: nat, i: nat, j: nat)
    requires a <= b <= |s| && Edge(s, a) && Edge(s, b) && Occurs(shape, s[a..b], i, j)
    ensures Occurs(shape, s, a + i, a + j)
  {
    hide Token;
    SliceOfSlice(s, a, b, i, j);
  }

  /** The marker neither makes nor hides an occurrence: it lies before it or behind it. */
  lemma MarkerSeparates(shape: Shape, g: string, rest: string, i: nat, j: nat)
    requires Occurs(shape, g + REDACTED + rest, i, j)
    ensures Exposed(shape, g) || Exposed(shape, rest)
  {
    var s := g + REDACTED + rest;
    var n := |g|;
    var w := s[i..j];
    TokenUnmarked(shape, w);
    hide Token;
    assert forall k | i <= k < j :: s[k] == w[k - i] && s[k] in w;
    assert s[n] == '[' && s[n + 9] == ']';
    if j <= n {
      BeforeMarker(shape, g, rest, i, j);
    } else {
      AfterMarker(shape, g, rest, i, j);
    }
  }

  lemma BeforeMarker(shape: Shape, g: string, rest: string, i: nat, j: nat)
    requires Occurs(shape, g + REDACTED + rest, i, j) && j <= |g|
    ensures Occurs(shape, g, i, j)
  {
    hide Token;
    var s := g + REDACTED + rest;
    assert s[i..j] == g[i..j];
    assert s[|g|] == '[';
    assert forall k | 0 <= k < |g| :: s[k] == g[k];
  }

  lemma AfterMarker(shape: Shape, g: string, rest: string, i: nat, j: nat)
    requires Occurs(shape, g + REDACTED + rest, i, j) && i >= |g| + 10
    ensures Occurs(shape, rest, i - |g| - 10, j - |g| - 10)
  {
    hide Token;
    var s := g + REDACTED + rest;
    var n := |g| + 10;
    assert s[i..j] == rest[i - n..j - n];
    assert s[n - 1] == ']';
    assert forall k | n <= k < |s| :: s[k] == rest[k - n];
  }

  lemma {:induction false} JoinExposes(shape: Shape, gaps: seq<string>)
    requires Exposed(shape, Join(gaps, REDACTED))
    ensures exists g | g in gaps :: Exposed(shape, g)
  {
    hide Occurs;
    var s := Join(gaps, REDACTED);
    if |gaps| == 1 {
      assert gaps[0] in gaps;
    } else {
      var i, j :| 0 <= i < j <= |s| && Occurs(shape, s, i, j);
      MarkerSeparates(shape, gaps[0], Join(gaps[1..], REDACTED), i, j);
      if Exposed(shape, gaps[0]) {
        assert gaps[0] in gaps;
      } else {
        JoinExposes(shape, gaps[1..]);
      }
    }
  }

  // ---- The gaps of a replacement ----

  /** Part of the text, outside words at both ends, in which no match starts. */
  ghost predicate CleanSlice(shape: Shape, s: string, g: string) {
    exists a: nat, b: nat | a <= b <= |s| ::
      g == s[a..b] && Edge(s, a) && Edge(s, b) && NoneFrom(shape, s, a, b)
  }

  predicate NoneFrom(shape: Shape, s: string, a: nat, b: nat)
    requires b <= |s|
  {
    forall i, j | a <= i < b && i < j <= |s| :: !Occurs(shape, s, i, j)
  }

  lemma EndIsEdge(s: string)
    ensures Edge(s, |s|)
  {
  }

  lemma OccurrenceEdges(shape: Shape, s: string, i: nat, j: nat)
    requires Occurs(shape, s, i, j)
    ensures Edge(s, i) && (Closes(shape) ==> Edge(s, j))
  {
    TokenUnmarked(shape, s[i..j]);
    hide Token;
    assert s[i..j][0] == s[i];
  }

  /** A greedy match without a closing boundary ends before something that is no word character. */
  lemma JwtEdge(s: string, i: nat, j: nat)
    requires Occurs(Jwt, s, i, j) && (j < |s| ==> !Occurs(Jwt, s, i, j + 1))
    ensures Edge(s, j)
  {
    if j < |s| && IsWord(s[j]) {
      JwtExtends(s, i, j);
    }
    hide Occurs;
  }

  lemma DashIsEdge(s: string, e: nat)
    requires e <= |s| && (e < |s| ==> e > 0 && s[e - 1] == '-')
    ensures Edge(s, e)
  {
  }

  lemma MatchEdges(shape: Shape, s: string, i: nat)
    requires i < |s| && MatchEnd(shape, s, i) > i
    ensures Edge(s, i) && Edge(s, MatchEnd(shape, s, i))
  {
    hide Occurs, Edge;
    var j := LastEnd(shape, s, i, |s|);
    LastEndIsLast(shape, s, i, |s|);
    OccurrenceEdges(shape, s, i, j);
    match shape
    case PrivateKey => DashIsEdge(s, FooterEnd(s, j, j));
    case Jwt => JwtEdge(s, i, j);
    case _ =>
  }

  lemma JwtExtends(s: string, i: nat, j: nat)
    requires Occurs(Jwt, s, i, j) && j < |s| && IsWord(s[j])
    ensures Occurs(Jwt, s, i, j + 1)
  {
    var w := s[i..j];
    assert s[i..j + 1] == w + [s[j]];
    PrefixedExtends(w, "eyJhbGciOi", IsTokenChar, 6, s[j]);
    var a :| 11 <= a <= |w| - 5 && At(w, a, ".eyJ");
    assert (w + [s[j]])[a..a + 4] == w[a..a + 4];
    assert At(w + [s[j]], a, ".eyJ");
  }

  lemma PrefixedExtends(w: string, prefix: string, test: char -> bool, least: nat, c: char)
    requires Prefixed(w, prefix, test, least) && test(c)
    ensures Prefixed(w + [c], prefix, test, least)
  {
    assert (w + [c])[0..|prefix|] == w[0..|prefix|];
    assert (w + [c])[|prefix|..] == w[|prefix|..] + [c];
  }

  lemma NoneNext(shape: Shape, s: string, from: nat, i: nat)
    requires from <= i < |s| && NoneFrom(shape, s, from, i) && MatchEnd(shape, s, i) == i
    ensures NoneFrom(shape, s, from, i + 1)
  {
    hide Occurs;
    LastEndIsLast(shape, s, i, |s|);
    assert forall j | i < j <= |s| :: !Occurs(shape, s, i, j);
  }

  ghost predicate AllClean(shape: Shape, s: string, gaps: seq<string>) {
    forall g | g in gaps :: CleanSlice(shape, s, g)
  }

  lemma OneClean(shape: Shape, s: string, a: nat, b: nat)
    requires a <= b <= |s| && Edge(s, a) && Edge(s, b) && NoneFrom(shape, s, a, b)
    ensures AllClean(shape, s, [s[a..b]])
  {
  }

  lemma CleanParts(shape: Shape, s: string, xs: seq<string>, ys: seq<string>)
    requires AllClean(shape, s, xs) && AllClean(shape, s, ys)
    ensures AllClean(shape, s, xs + ys)
  {
    hide CleanSlice;
  }

  lemma TailSlices(s: string, from: nat, i: nat, e: nat)
    requires from <= i <= e <= |s|
    ensures s[from..][..i - from] == s[from..i]
    ensures s[from..][i - from..e - from] == s[i..e]
    ensures s[from..][e - from..] == s[e..]
  {
  }

  lemma TailCuts(cut: (nat, nat), cuts: seq<(nat, nat)>)
    ensures ([cut] + cuts)[0] == cut && ([cut] + cuts)[1..] == cuts
  {
  }

  lemma FirstCut(t: string, k: nat, d: nat, cuts: seq<(nat, nat)>)
    requires k <= d <= |t|
    ensures Gaps(t, [(k, d - k)] + cuts) == [t[..k]] + Gaps(t[d..], cuts)
    ensures Drops(t, [(k, d - k)] + cuts) == [t[k..d]] + Drops(t[d..], cuts)
  {
    TailCuts((k, d - k), cuts);
    CutsStep(t, [(k, d - k)] + cuts, k, d);
    hide *;
  }

  lemma GapsStep(s: string, from: nat, i: nat, e: nat, cuts: seq<(nat, nat)>)
    requires from <= i < e <= |s|
    ensures Gaps(s[from..], [(i - from, e - i)] + cuts) == [s[from..i]] + Gaps(s[e..], cuts)
  {
    hide *;
    FirstCut(s[from..], i - from, e - from, cuts);
    TailSlices(s, from, i, e);
  }

  lemma {:induction false} GapsClean(shape: Shape, s: string, from: nat, i: nat)
    requires from <= i <= |s| && Edge(s, from) && NoneFrom(shape, s, from, i)
    ensures AllClean(shape, s, Gaps(s[from..], Scanned(shape, s, from, i)))
    decreases |s| - i
  {
    hide Edge, NoneFrom, AllClean, MatchEnd;
    if i == |s| {
      EndIsEdge(s);
      OneClean(shape, s, from, |s|);
      assert s[from..] == s[from..|s|];
    } else {
      var e := MatchEnd(shape, s, i);
      if e == i {
        NoneNext(shape, s, from, i);
        GapsClean(shape, s, from, i + 1);
      } else {
        MatchEdges(shape, s, i);
        NoneEmpty(shape, s, e);
        GapsClean(shape, s, e, e);
        GapsStep(s, from, i, e, Scanned(shape, s, e, e));
        OneClean(shape, s, from, i);
        CleanParts(shape, s, [s[from..i]], Gaps(s[e..], Scanned(shape, s, e, e)));
      }
    }
  }

  lemma NoneEmpty(shape: Shape, s: string, e: nat)
    requires e <= |s|
    ensures NoneFrom(shape, s, e, e)
  {
  }

  // ---- One replacement ----

  lemma CleanHides(shape: Shape, s: string, g: string)
    requires CleanSlice(shape, s, g)
    ensures !Exposed(shape, g)
    ensures forall other | Exposed(other, g) :: Exposed(other, s)
  {
    var a: nat, b: nat :| a <= b <= |s| && g == s[a..b] && Edge(s, a) && Edge(s, b) && NoneFrom(shape, s, a, b);
    hide Edge, Occurs;
    forall other: Shape, i: nat, j: nat | i < j <= |g| && Occurs(other, g, i, j)
      ensures Occurs(other, s, a + i, a + j)
    {
      SliceOccurs(other, s, a, b, i, j);
    }
  }

  /** Replacing the matches of a pattern leaves none, and brings no other shape to light. */
  lemma ReplacementHides(shape: Shape, s: string)
    ensures !Exposed(shape, Mask(s, PatternOf(shape)(s)))
    ensures forall other | Exposed(other, Mask(s, PatternOf(shape)(s))) :: Exposed(other, s)
  {
    var cuts := Scanned(shape, s, 0, 0);
    hide Exposed, CleanSlice, Scanned, Edge;
    StartIsEdge(s);
    NoneEmpty(shape, s, 0);
    GapsClean(shape, s, 0, 0);
    assert s[0..] == s;
    MaskReplaces(s, cuts);
    forall other: Shape | Exposed(other, Mask(s, cuts)) ensures other != shape && Exposed(other, s) {
      JoinExposes(other, Gaps(s, cuts));
      var g :| g in Gaps(s, cuts) && Exposed(other, g);
      CleanHides(shape, s, g);
    }
  }

  lemma StartIsEdge(s: string)
    ensures Edge(s, 0)
  {
  }

  /** A pattern cuts something exactly when the text shows its shape. */
  lemma CutsExactly(shape: Shape, s: string)
    ensures PatternOf(shape)(s) != [] <==> Exposed(shape, s)
  {
    hide Exposed;
    NoneEmpty(shape, s, 0);
    ScannedNone(shape, s, 0);
    if PatternOf(shape)(s) == [] {
      ReplacementHides(shape, s);
    }
  }

  lemma {:induction false} ScannedNone(shape: Shape, s: string, i: nat)
    requires i <= |s|
    ensures Scanned(shape, s, 0, i) != [] ==> Exposed(shape, s)
    decreases |s| - i
  {
    hide Occurs;
    if i < |s| {
      LastEndIsLast(shape, s, i, |s|);
      if MatchEnd(shape, s, i) == i {
        ScannedNone(shape, s, i + 1);
      }
    }
  }

  /** What a replacement drops starts with a token, and outside private keys is one. */
  ghost predicate Matched(shape: Shape, s: string, drop: string) {
    exists i: nat, j: nat, e: nat | i < j <= e <= |s| ::
      drop == s[i..e] && Occurs(shape, s, i, j) && (!shape.PrivateKey? ==> j == e)
  }

  lemma DropsStep(s: string, from: nat, i: nat, e: nat, cuts: seq<(nat, nat)>)
    requires from <= i < e <= |s|
    ensures Drops(s[from..], [(i - from, e - i)] + cuts) == [s[i..e]] + Drops(s[e..], cuts)
  {
    hide *;
    FirstCut(s[from..], i - from, e - from, cuts);
    TailSlices(s, from, i, e);
  }

  lemma MatchIsMatched(shape: Shape, s: string, i: nat)
    requires i < |s| && MatchEnd(shape, s, i) > i
    ensures Matched(shape, s, s[i..MatchEnd(shape, s, i)])
  {
    hide Occurs;
    LastEndIsLast(shape, s, i, |s|);
    assert Occurs(shape, s, i, LastEnd(shape, s, i, |s|));
  }

  lemma {:induction false} ScannedMatched(shape: Shape, s: string, from: nat, i: nat)
    requires from <= i <= |s|
    ensures forall d | d in Drops(s[from..], Scanned(shape, s, from, i)) :: Matched(shape, s, d)
    decreases |s| - i
  {
    hide Matched, MatchEnd;
    if i < |s| {
      var e := MatchEnd(shape, s, i);
      if e == i {
        ScannedMatched(shape, s, from, i + 1);
      } else {
        ScannedMatched(shape, s, e, e);
        MatchIsMatched(shape, s, i);
        DropsStep(s, from, i, e, Scanned(shape, s, e, e));
      }
    }
  }

  /** A replacement drops matches and nothing else. */
  lemma DropsAreMatches(shape: Shape, s: string)
    ensures forall d | d in Drops(s, PatternOf(shape)(s)) :: Matched(shape, s, d)
    ensures Weave(Gaps(s, PatternOf(shape)(s)), Drops(s, PatternOf(shape)(s))) == s
  {
    hide Matched;
    ScannedMatched(shape, s, 0, 0);
    assert s[0..] == s;
    GapsAndDrops(s, PatternOf(shape)(s));
  }

  // ---- All replacements, and the length bound ----

  lemma {:induction false} ReplacementsHide(shapes: seq<Shape>, s: string)
    ensures forall shape | shape in shapes :: !Exposed(shape, MaskAll(s, PatternsOf(shapes)))
    ensures forall other | Exposed(other, MaskAll(s, PatternsOf(shapes))) :: Exposed(other, s)
    decreases |shapes|
  {
    hide Exposed, PatternOf, Mask;
    if shapes != [] {
      ReplacementHides(shapes[0], s);
      ReplacementsHide(shapes[1..], Mask(s, PatternOf(shapes[0])(s)));
    }
  }

  /** Replacing all patterns in turn leaves no match of any of them. */
  lemma NoShapeLeft(s: string, shape: Shape)
    ensures !Exposed(shape, MaskAll(s, PatternsOf(SHAPES)))
  {
    hide Exposed, MaskAll;
    ReplacementsHide(SHAPES, s);
    assert shape in SHAPES;
  }

  lemma EndsBefore(r: string, n: nat, i: nat, j: nat)
    requires n < |r| && r[n] == '\U{2026}' && i < j <= |r| && Unmarked(r[i..j])
    ensures n < i || j <= n
  {
    var w := r[i..j];
    assert forall k | i <= k < j :: r[k] == w[k - i] && r[k] in w;
  }

  /** What is found before a cut is found in the whole, unless it ends at the cut and the cut is in a word. */
  lemma CutOccurs(shape: Shape, s: string, n: nat, i: nat, j: nat)
    requires n < |s| && j <= n && Occurs(shape, s[..n] + ELLIPSIS, i, j)
    ensures Occurs(shape, s, i, j) || (Closes(shape) && j == n && !Edge(s, n))
  {
    hide Token;
    var r := s[..n] + ELLIPSIS;
    assert r[i..j] == s[i..j];
    assert r[n] == '\U{2026}' && forall k | 0 <= k < n :: r[k] == s[k];
  }

  lemma TruncatedOccurs(shape: Shape, s: string, i: nat, j: nat)
    requires |s| > MAX_SAFE_TEXT_LENGTH && Occurs(shape, Bounded(s), i, j)
    ensures Occurs(shape, s, i, j) || (Closes(shape) && j == MAX_SAFE_TEXT_LENGTH && !Edge(s, j))
  {
    var r := Bounded(s);
    TokenUnmarked(shape, r[i..j]);
    EndsBefore(r, MAX_SAFE_TEXT_LENGTH, i, j);
    hide Token, Edge;
    CutOccurs(shape, s, MAX_SAFE_TEXT_LENGTH, i, j);
  }

  /** No secret shape leaves the boundary: whatever the text and the trusted secrets, a match in the redacted
      text could only end where the length bound cut a longer word. */
  lemma ShapesRedacted(s: string, secrets: seq<string>, shape: Shape, i: nat, j: nat)
    requires Occurs(shape, RedactText(s, secrets, PatternsOf(SHAPES)), i, j)
    ensures Closes(shape) && j == MAX_SAFE_TEXT_LENGTH
    ensures |RedactText(s, secrets, PatternsOf(SHAPES))| == MAX_SAFE_TEXT_LENGTH + 1
    ensures !Edge(MaskAll(RedactAll(s, secrets), PatternsOf(SHAPES)), j)
  {
    hide Occurs, Edge;
    var masked := MaskAll(RedactAll(s, secrets), PatternsOf(SHAPES));
    NoShapeLeft(RedactAll(s, secrets), shape);
    if Occurs(shape, masked, i, j) {
      InRange(shape, masked, i, j);
    } else {
      TruncatedOccurs(shape, masked, i, j);
    }
  }

  /** The first `n` characters end in a token of the shape, and the cut is inside a word. */
  ghost predicate CutInside(shape: Shape, s: string, n: nat) {
    n < |s| && !Edge(s, n) && exists i | 0 <= i < n :: Boundary(s, i) && Token(shape, s[i..n])
  }

  lemma CutMakes(shape: Shape, s: string, n: nat)
    requires Closes(shape) && CutInside(shape, s, n)
    ensures Exposed(shape, s[..n] + ELLIPSIS)
  {
    hide Token;
    var i :| 0 <= i < n && Boundary(s, i) && Token(shape, s[i..n]);
    var r := s[..n] + ELLIPSIS;
    assert r[i..n] == s[i..n];
    assert r[n] == '\U{2026}' && forall k | 0 <= k < n :: r[k] == s[k];
    assert Occurs(shape, r, i, n);
  }

  lemma CutTells(shape: Shape, s: string, n: nat, i: nat)
    requires n < |s| && !Edge(s, n) && i < n && Opens(shape) && Occurs(shape, s[..n] + ELLIPSIS, i, n)
    ensures CutInside(shape, s, n)
  {
    hide Token;
    var r := s[..n] + ELLIPSIS;
    assert r[i..n] == s[i..n];
    assert r[n] == '\U{2026}' && forall k | 0 <= k < n :: r[k] == s[k];
  }

  /** Exactly when a shape is shown after all: the text is longer than the bound even with everything masked,
      and the bound cuts a longer word just where its first part is a token. */
  lemma ShapeShownExactly(s: string, secrets: seq<string>, shape: Shape)
    ensures Exposed(shape, RedactText(s, secrets, PatternsOf(SHAPES))) <==>
              Closes(shape) && CutInside(shape, MaskAll(RedactAll(s, secrets), PatternsOf(SHAPES)), MAX_SAFE_TEXT_LENGTH)
  {
    var masked := MaskAll(RedactAll(s, secrets), PatternsOf(SHAPES));
    var r := RedactText(s, secrets, PatternsOf(SHAPES));
    hide Occurs, Edge, Boundary, Token, MaskAll, RedactAll;
    if Exposed(shape, r) {
      var i, j :| 0 <= i < j <= |r| && Occurs(shape, r, i, j);
      ShapesRedacted(s, secrets, shape, i, j);
      CutTells(shape, masked, MAX_SAFE_TEXT_LENGTH, i);
    }
    if Closes(shape) && CutInside(shape, masked, MAX_SAFE_TEXT_LENGTH) {
      CutMakes(shape, masked, MAX_SAFE_TEXT_LENGTH);
    }
  }

  lemma InRange(shape: Shape, s: string, i: nat, j: nat)
    requires Occurs(shape, s, i, j)
    ensures Exposed(shape, s)
  {
    hide Token;
  }

  /** Text that shows no shape and holds no trusted secret passes unchanged, up to the bound. */
  lemma ShapelessPasses(s: string, secrets: seq<string>)
    requires forall shape :: !Exposed(shape, s)
    requires forall secret | secret in secrets :: secret == [] || !Contains(s, secret)
    ensures RedactText(s, secrets, PatternsOf(SHAPES)) ==
              if |s| <= MAX_SAFE_TEXT_LENGTH then s else s[..MAX_SAFE_TEXT_LENGTH] + ELLIPSIS
  {
    hide Exposed, PatternOf, RedactText;
    var patterns := PatternsOf(SHAPES);
    forall k | 0 <= k < |patterns| ensures patterns[k](s) == [] {
      CutsExactly(SHAPES[k], s);
    }
    PlainTextPasses(s, secrets, patterns);
  }

  // ---- The length bound does make a shape ----

  const PADDING := seq(1980, _ => ' ')
  const LONG := PADDING + "AKIA" + seq(17, _ => 'A')

  /** The long word is no access key, but its first twenty characters are, and the bound cuts it there. */
  lemma TruncationExposes()
    ensures forall shape :: !Exposed(shape, LONG)
    ensures Exposed(AwsKey, RedactText(LONG, [], PatternsOf(SHAPES)))
  {
    hide Exposed;
    forall shape ensures !Exposed(shape, LONG) {
      LongIsShapeless(shape);
    }
    ShapelessPasses(LONG, []);
    hide RedactText;
    CutIsKey();
  }

  lemma LongIs()
    ensures |LONG| == 2001
    ensures forall k | 0 <= k < 2001 :: LONG[k] == if k < 1980 then ' ' else if k == 1981 then 'K' else if k == 1982 then 'I' else 'A'
  {
  }

  lemma CutIsKey()
    ensures Exposed(AwsKey, LONG[..MAX_SAFE_TEXT_LENGTH] + ELLIPSIS)
  {
    var r := LONG[..MAX_SAFE_TEXT_LENGTH] + ELLIPSIS;
    LongIs();
    hide LONG;
    var w := r[1980..2000];
    assert w[0..4] == "AKIA" && forall k | 4 <= k < 20 :: w[k] == 'A';
    assert Prefixed(w, "AKIA", IsUpper, 16);
    assert Occurs(AwsKey, r, 1980, 2000);
  }

  lemma TokenStarts(shape: Shape, w: string)
    requires Token(shape, w) && w[0] in " AKI"
    ensures shape.AwsKey? && StartsWith(w, "AKIA") && |w| == 20
  {
    TokenUnmarked(shape, w);
  }

  lemma LongIsShapeless(shape: Shape)
    ensures !Exposed(shape, LONG)
  {
    LongIs();
    hide LONG;
    forall i: nat, j: nat | i < j <= |LONG| ensures !Occurs(shape, LONG, i, j) {
      if Occurs(shape, LONG, i, j) {
        var w := LONG[i..j];
        assert w[0] == LONG[i];
        TokenStarts(shape, w);
      }
    }
  }
}
