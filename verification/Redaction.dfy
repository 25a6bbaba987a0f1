/** Exact-value redaction of trusted secrets, through free text and nested metadata. */
module Redaction {
  import opened Strings

  const REDACTED := "[REDACTED]"
  const INNER := "REDACTED"
  const ELLIPSIS := "\U{2026}"
  const MAX_SAFE_TEXT_LENGTH := 2000

  /** The alphabet of credential references. */
  predicate InAlphabet(c: char) {
    'a' <= c <= 'z' || 'A' <= c <= 'Z' || IsDigit(c) || c == '.' || c == '_' || c == ':' || c == '-'
  }

  /** A credential reference as the resolver accepts it. */
  predicate IsCredential(s: string) {
    1 <= |s| <= 256 && forall c | c in s :: InAlphabet(c)
  }

  /** Non-empty and free of the marker's brackets: all that the text-level results need. */
  predicate BracketFree(s: string) {
    s != [] && '[' !in s && ']' !in s
  }

  // ---- split and join ----

  /** Index of the first occurrence, or -1. */
  function FirstIndex(s: string, p: string): (k: int)
    ensures -1 <= k <= |s|
    ensures k == -1 ==> !Contains(s, p)
    ensures k >= 0 ==> At(s, k, p) && forall i | 0 <= i < k :: !At(s, i, p)
  {
    if At(s, 0, p) then 0
    else if s == [] then -1
    else
      var k := FirstIndex(s[1..], p);
      assert forall i | 0 < i <= |s| :: At(s, i, p) <==> At(s[1..], i - 1, p) by { ShiftAt(s, p); }
      if k < 0 then -1 else k + 1
  }

  lemma ShiftAt(s: string, p: string)
    requires s != []
    ensures forall i | 0 < i <= |s| :: At(s, i, p) <==> At(s[1..], i - 1, p)
  {
  }

  /** `s.split(p)`: the pieces between the leftmost non-overlapping occurrences. */
  function Split(s: string, p: string): seq<string>
    requires p != []
    decreases |s|
  {
    var k := FirstIndex(s, p);
    if k < 0 then [s] else [s[..k]] + Split(s[k + |p|..], p)
  }

  /** The pieces are free of the separator and joining them with it gives the text back. */
  lemma {:induction false} SplitPieces(s: string, p: string)
    requires p != []
    ensures Split(s, p) != []
    ensures Join(Split(s, p), p) == s
    ensures forall piece | piece in Split(s, p) :: !Contains(piece, p)
    decreases |s|
  {
    var k := FirstIndex(s, p);
    if k < 0 {
    } else {
      var rest := Split(s[k + |p|..], p);
      SplitPieces(s[k + |p|..], p);
      JoinCons(s[..k], rest, p);
      assert s == s[..k] + p + s[k + |p|..];
      NothingBeforeFirst(s, k, p);
    }
  }

  lemma JoinCons(first: string, rest: seq<string>, sep: string)
    requires rest != []
    ensures Join([first] + rest, sep) == first + sep + Join(rest, sep)
  {
  }

  lemma NothingBeforeFirst(s: string, k: nat, p: string)
    requires k <= |s| && p != [] && forall i | 0 <= i < k :: !At(s, i, p)
    ensures !Contains(s[..k], p)
  {
    forall i | 0 <= i <= k
      ensures !At(s[..k], i, p)
    {
      if i + |p| <= k {
        SliceOfSlice(s, 0, k, i, i + |p|);
        assert s[..k] == s[0..k];
        assert !At(s, i, p);
      }
    }
  }

  // ---- Redaction of one string ----

  function RedactOne(s: string, secret: string): string {
    if secret != [] && Contains(s, secret) then Join(Split(s, secret), REDACTED) else s
  }

  function RedactAll(s: string, secrets: seq<string>): string
    decreases |secrets|
  {
    if secrets == [] then s else RedactAll(RedactOne(s, secrets[0]), secrets[1..])
  }

  method RedactExactSecretValues(text: string, secrets: seq<string>) returns (redacted: string)
    ensures redacted == RedactAll(text, secrets)
  {
    redacted := text;
    for i := 0 to |secrets|
      invariant RedactAll(text, secrets) == RedactAll(redacted, secrets[i..])
    {
      var secret := secrets[i];
      if |secret| > 0 && Contains(redacted, secret) {
        redacted := Join(Split(redacted, secret), REDACTED);
      }
    }
  }

  /** A bracket-free string cannot straddle the marker: it lies before it, inside its brackets, or after it. */
  lemma MarkerBreaks(a: string, b: string, t: string)
    requires BracketFree(t) && Contains(a + REDACTED + b, t)
    ensures Contains(a, t) || Contains(INNER, t) || Contains(b, t)
  {
    var s := a + REDACTED + b;
    var i :| 0 <= i <= |s| && At(s, i, t);
    var n := |a|;
    assert s[n] == '[' && s[n + 9] == ']';
    Misses(s, i, t, n);
    Misses(s, i, t, n + 9);
    hide Contains, At, BracketFree;
    if i + |t| <= n {
      assert a == s[0..n];
      InSlice(s, 0, n, i, t);
    } else if i > n + 9 {
      assert b == s[n + 10..|s|];
      InSlice(s, n + 10, |s|, i, t);
    } else {
      assert INNER == s[n + 1..n + 9];
      InSlice(s, n + 1, n + 9, i, t);
    }
  }

  /** An occurrence of a bracket-free string covers no bracket. */
  lemma Misses(s: string, i: int, t: string, n: nat)
    requires BracketFree(t) && At(s, i, t) && n < |s| && s[n] in "[]"
    ensures !(i <= n < i + |t|)
  {
    assert forall k | i <= k < i + |t| :: s[k] == t[k - i] && t[k - i] in t;
  }

  lemma InSlice(s: string, lo: int, hi: int, i: int, t: string)
    requires 0 <= lo <= i && i + |t| <= hi <= |s| && At(s, i, t)
    ensures Contains(s[lo..hi], t)
  {
    SliceOfSlice(s, lo, hi, i - lo, i - lo + |t|);
    assert At(s[lo..hi], i - lo, t);
  }

  lemma MarkerKeepsAbsence(a: string, b: string, t: string)
    requires BracketFree(t) && !Contains(INNER, t) && !Contains(a, t) && !Contains(b, t)
    ensures !Contains(a + REDACTED + b, t)
  {
    if Contains(a + REDACTED + b, t) {
      MarkerBreaks(a, b, t);
    }
  }

  lemma {:induction false} JoinKeepsAbsence(pieces: seq<string>, t: string)
    requires BracketFree(t) && !Contains(INNER, t)
    requires forall piece | piece in pieces :: !Contains(piece, t)
    ensures !Contains(Join(pieces, REDACTED), t)
  {
    if pieces == [] {
    } else if |pieces| == 1 {
      assert pieces[0] in pieces;
    } else {
      JoinKeepsAbsence(pieces[1..], t);
      assert pieces[0] in pieces;
      MarkerKeepsAbsence(pieces[0], Join(pieces[1..], REDACTED), t);
    }
  }

  lemma {:induction false} PiecesAreSlices(s: string, p: string, t: string)
    requires p != [] && !Contains(s, t)
    ensures forall piece | piece in Split(s, p) :: !Contains(piece, t)
    decreases |s|
  {
    var k := FirstIndex(s, p);
    if k < 0 {
    } else {
      SliceContains(s, 0, k, t);
      assert s[0..k] == s[..k];
      SliceContains(s, k + |p|, |s|, t);
      assert s[k + |p|..|s|] == s[k + |p|..];
      PiecesAreSlices(s[k + |p|..], p, t);
    }
  }

  /** Redacting a secret removes it, and brings back nothing that was absent. */
  lemma RedactOneFree(s: string, secret: string, t: string)
    requires BracketFree(t) && !Contains(INNER, t)
    requires secret == t || !Contains(s, t)
    ensures !Contains(RedactOne(s, secret), t)
  {
    if secret != [] && Contains(s, secret) {
      if secret == t {
        SplitPieces(s, secret);
      } else {
        PiecesAreSlices(s, secret, t);
      }
      JoinKeepsAbsence(Split(s, secret), t);
    }
  }

  lemma {:induction false} RedactAllKeepsAbsence(s: string, secrets: seq<string>, t: string)
    requires BracketFree(t) && !Contains(INNER, t) && !Contains(s, t)
    ensures !Contains(RedactAll(s, secrets), t)
    decreases |secrets|
  {
    if secrets == [] {
    } else {
      RedactOneFree(s, secrets[0], t);
      RedactAllKeepsAbsence(RedactOne(s, secrets[0]), secrets[1..], t);
    }
  }

  /** However many secrets there are, none of them survives. */
  lemma {:induction false} RedactAllFree(s: string, secrets: seq<string>, t: string)
    requires BracketFree(t) && !Contains(INNER, t) && t in secrets
    ensures !Contains(RedactAll(s, secrets), t)
    decreases |secrets|
  {
    if secrets[0] == t {
      RedactOneFree(s, t, t);
      RedactAllKeepsAbsence(RedactOne(s, t), secrets[1..], t);
    } else {
      RedactAllFree(RedactOne(s, secrets[0]), secrets[1..], t);
    }
  }

  predicate Survives(text: string, secret: string) {
    Contains(RedactAll(text, [secret]), secret)
  }

  /** Exactly when a secret never survives in any text: the marker itself must not spell it. */
  lemma RedactionExact(secret: string)
    requires BracketFree(secret)
    ensures (forall text: string :: !Survives(text, secret)) <==> !Contains(INNER, secret)
  {
    if !Contains(INNER, secret) {
      forall text: string ensures !Survives(text, secret) {
        RedactAllFree(text, [secret], secret);
      }
    } else {
      MarkerLeaks(secret);
      assert Survives(secret, secret);
    }
  }

  lemma RedactSelf(secret: string)
    requires secret != []
    ensures RedactAll(secret, [secret]) == REDACTED
  {
    assert At(secret, 0, secret);
    assert FirstIndex(secret, secret) == 0;
    var rest := secret[|secret|..];
    assert FirstIndex(rest, secret) == -1;
    assert Split(rest, secret) == [""];
    assert Split(secret, secret) == ["", ""];
    assert Join(["", ""], REDACTED) == "" + REDACTED + Join(["", ""][1..], REDACTED);
    assert ["", ""][1..] == [""];
    assert RedactOne(secret, secret) == REDACTED;
    assert [secret][1..] == [];
  }

  lemma MarkerSpells(t: string)
    requires Contains(INNER, t)
    ensures Contains(REDACTED, t)
  {
    var i :| 0 <= i <= |INNER| && At(INNER, i, t);
    assert forall k | 0 <= k < 8 :: REDACTED[k + 1] == INNER[k];
    assert REDACTED[i + 1..i + 1 + |t|] == INNER[i..i + |t|];
    assert At(REDACTED, i + 1, t);
  }

  lemma MarkerLeaks(secret: string)
    requires secret != [] && Contains(INNER, secret)
    ensures Contains(RedactAll(secret, [secret]), secret)
  {
    RedactSelf(secret);
    MarkerSpells(secret);
  }

  // ---- Free text: exact values, then the known secret shapes, then the length bound ----

  /** A pattern tells, for a text, what its global replacement cuts: pairs of a gap to keep and a length to drop. */
  type Pattern = string -> seq<(nat, nat)>

  function Min(a: int, b: int): int { if a <= b then a else b }

  function Mask(s: string, cuts: seq<(nat, nat)>): string
    decreases |cuts|
  {
    if cuts == [] then s
    else
      var keep := Min(cuts[0].0, |s|);
      var drop := Min(keep + cuts[0].1, |s|);
      s[..keep] + REDACTED + Mask(s[drop..], cuts[1..])
  }

  function MaskAll(s: string, patterns: seq<Pattern>): string
    decreases |patterns|
  {
    if patterns == [] then s else MaskAll(Mask(s, patterns[0](s)), patterns[1..])
  }

  function Bounded(s: string): string {
    if |s| > MAX_SAFE_TEXT_LENGTH then s[..MAX_SAFE_TEXT_LENGTH] + ELLIPSIS else s
  }

  function RedactText(s: string, secrets: seq<string>, patterns: seq<Pattern>): string {
    Bounded(MaskAll(RedactAll(s, secrets), patterns))
  }

  method RedactSecretMaterial(text: string, secrets: seq<string>, patterns: seq<Pattern>) returns (redacted: string)
    ensures redacted == RedactText(text, secrets, patterns)
  {
    redacted := RedactExactSecretValues(text, secrets);
    ghost var exact := redacted;
    for i := 0 to |patterns|
      invariant MaskAll(exact, patterns) == MaskAll(redacted, patterns[i..])
    {
      redacted := Mask(redacted, patterns[i](redacted));
    }
    if |redacted| > MAX_SAFE_TEXT_LENGTH {
      redacted := redacted[..MAX_SAFE_TEXT_LENGTH] + ELLIPSIS;
    }
  }

  lemma {:induction false} MaskKeepsAbsence(s: string, cuts: seq<(nat, nat)>, t: string)
    requires BracketFree(t) && !Contains(INNER, t) && !Contains(s, t)
    ensures !Contains(Mask(s, cuts), t)
    decreases |cuts|
  {
    if cuts == [] {
    } else {
      var keep := Min(cuts[0].0, |s|);
      var drop := Min(keep + cuts[0].1, |s|);
      assert s[..keep] == s[0..keep] && s[drop..] == s[drop..|s|];
      SliceContains(s, 0, keep, t);
      SliceContains(s, drop, |s|, t);
      MaskKeepsAbsence(s[drop..], cuts[1..], t);
      MarkerKeepsAbsence(s[..keep], Mask(s[drop..], cuts[1..]), t);
    }
  }

  lemma {:induction false} MaskAllKeepsAbsence(s: string, patterns: seq<Pattern>, t: string)
    requires BracketFree(t) && !Contains(INNER, t) && !Contains(s, t)
    ensures !Contains(MaskAll(s, patterns), t)
    decreases |patterns|
  {
    if patterns == [] {
    } else {
      MaskKeepsAbsence(s, patterns[0](s), t);
      MaskAllKeepsAbsence(Mask(s, patterns[0](s)), patterns[1..], t);
    }
  }

  lemma BoundedContains(s: string, t: string)
    requires t != [] && '\U{2026}' !in t
    ensures Contains(Bounded(s), t) ==> Contains(s, t)
  {
    var r := Bounded(s);
    if |s| > MAX_SAFE_TEXT_LENGTH && Contains(r, t) {
      var i :| 0 <= i <= |r| && At(r, i, t);
      var kept := s[..MAX_SAFE_TEXT_LENGTH];
      EllipsisBreaks(kept, i, t);
      SliceContains(s, 0, MAX_SAFE_TEXT_LENGTH, t);
    }
  }

  lemma EllipsisBreaks(kept: string, i: int, t: string)
    requires t != [] && '\U{2026}' !in t && At(kept + ELLIPSIS, i, t)
    ensures Contains(kept, t)
  {
    var r := kept + ELLIPSIS;
    assert forall k | i <= k < i + |t| :: r[k] == t[k - i];
    assert r[|kept|] == '\U{2026}';
    assert i + |t| <= |kept|;
    assert kept[i..i + |t|] == r[i..i + |t|];
    assert At(kept, i, t);
  }

  /** Neither pattern replacement nor truncation can bring the secret back. */
  lemma RedactTextFree(s: string, secrets: seq<string>, patterns: seq<Pattern>, t: string)
    requires BracketFree(t) && '\U{2026}' !in t && !Contains(INNER, t) && t in secrets
    ensures !Contains(RedactText(s, secrets, patterns), t)
  {
    RedactAllFree(s, secrets, t);
    MaskAllKeepsAbsence(RedactAll(s, secrets), patterns, t);
    BoundedContains(MaskAll(RedactAll(s, secrets), patterns), t);
  }

  // ---- What the patterns do ----

  /** What a replacement keeps: the stretches of the text between the cuts. */
  function Gaps(s: string, cuts: seq<(nat, nat)>): (gaps: seq<string>)
    ensures |gaps| == |cuts| + 1
    decreases |cuts|
  {
    if cuts == [] then [s]
    else
      var keep := Min(cuts[0].0, |s|);
      [s[..keep]] + Gaps(s[Min(keep + cuts[0].1, |s|)..], cuts[1..])
  }

  /** What it drops. */
  function Drops(s: string, cuts: seq<(nat, nat)>): (drops: seq<string>)
    ensures |drops| == |cuts|
    decreases |cuts|
  {
    if cuts == [] then []
    else
      var keep := Min(cuts[0].0, |s|);
      var drop := Min(keep + cuts[0].1, |s|);
      [s[keep..drop]] + Drops(s[drop..], cuts[1..])
  }

  /** The gaps with `drops` between them. */
  function Weave(gaps: seq<string>, drops: seq<string>): string
    requires |gaps| == |drops| + 1
  {
    if drops == [] then gaps[0] else gaps[0] + drops[0] + Weave(gaps[1..], drops[1..])
  }

  lemma WeaveCons(gap: string, drop: string, gaps: seq<string>, drops: seq<string>)
    requires |gaps| == |drops| + 1
    ensures Weave([gap] + gaps, [drop] + drops) == gap + drop + Weave(gaps, drops)
  {
    assert ([gap] + gaps)[1..] == gaps && ([drop] + drops)[1..] == drops;
  }

  lemma CutInThree(s: string, i: nat, j: nat)
    requires i <= j <= |s|
    ensures s[..i] + s[i..j] + s[j..] == s
  {
  }

  lemma CutsStep(s: string, cuts: seq<(nat, nat)>, keep: nat, drop: nat)
    requires cuts != [] && keep == Min(cuts[0].0, |s|) && drop == Min(keep + cuts[0].1, |s|)
    ensures Gaps(s, cuts) == [s[..keep]] + Gaps(s[drop..], cuts[1..])
    ensures Drops(s, cuts) == [s[keep..drop]] + Drops(s[drop..], cuts[1..])
  {
  }

  /** Nothing is lost beside the cuts: gaps and drops together are the text. */
  lemma {:induction false} GapsAndDrops(s: string, cuts: seq<(nat, nat)>)
    ensures Weave(Gaps(s, cuts), Drops(s, cuts)) == s
    decreases |cuts|
  {
    if cuts == [] {
    } else {
      var keep := Min(cuts[0].0, |s|);
      var drop := Min(keep + cuts[0].1, |s|);
      CutsStep(s, cuts, keep, drop);
      hide *;
      GapsAndDrops(s[drop..], cuts[1..]);
      WeaveCons(s[..keep], s[keep..drop], Gaps(s[drop..], cuts[1..]), Drops(s[drop..], cuts[1..]));
      CutInThree(s, keep, drop);
    }
  }

  /** A replacement writes the marker for each cut and keeps the gaps. */
  lemma {:induction false} MaskReplaces(s: string, cuts: seq<(nat, nat)>)
    ensures Mask(s, cuts) == Join(Gaps(s, cuts), REDACTED)
    decreases |cuts|
  {
    if cuts == [] {
    } else {
      var keep := Min(cuts[0].0, |s|);
      var drop := Min(keep + cuts[0].1, |s|);
      MaskReplaces(s[drop..], cuts[1..]);
      JoinCons(s[..keep], Gaps(s[drop..], cuts[1..]), REDACTED);
      hide Join;
    }
  }

  /** The pattern cuts every occurrence of `t`: it is in nothing that the replacement keeps. */
  ghost predicate CutsOut(pattern: Pattern, t: string) {
    forall s: string, gap | gap in Gaps(s, pattern(s)) :: !Contains(gap, t)
  }

  lemma MaskFree(s: string, pattern: Pattern, t: string)
    requires BracketFree(t) && !Contains(INNER, t) && CutsOut(pattern, t)
    ensures !Contains(Mask(s, pattern(s)), t)
  {
    MaskReplaces(s, pattern(s));
    JoinKeepsAbsence(Gaps(s, pattern(s)), t);
  }

  lemma {:induction false} MaskAllFree(s: string, patterns: seq<Pattern>, k: nat, t: string)
    requires BracketFree(t) && !Contains(INNER, t) && k < |patterns| && CutsOut(patterns[k], t)
    ensures !Contains(MaskAll(s, patterns), t)
    decreases |patterns|
  {
    hide CutsOut, Mask, Contains, BracketFree;
    var masked := Mask(s, patterns[0](s));
    if k == 0 {
      MaskFree(s, patterns[0], t);
      MaskAllKeepsAbsence(masked, patterns[1..], t);
    } else {
      MaskAllFree(masked, patterns[1..], k - 1, t);
    }
  }

  /** What one of the patterns cuts out is not in the redacted text, whichever patterns come before or
      after it and whatever the trusted secrets are. */
  lemma PatternTextFree(s: string, secrets: seq<string>, patterns: seq<Pattern>, k: nat, t: string)
    requires BracketFree(t) && '\U{2026}' !in t && !Contains(INNER, t)
    requires k < |patterns| && CutsOut(patterns[k], t)
    ensures !Contains(RedactText(s, secrets, patterns), t)
  {
    hide CutsOut, Contains, Mask;
    var exact := RedactAll(s, secrets);
    MaskAllFree(exact, patterns, k, t);
    BoundedContains(MaskAll(exact, patterns), t);
  }

  lemma {:induction false} RedactAllIdle(s: string, secrets: seq<string>)
    requires forall secret | secret in secrets :: secret == [] || !Contains(s, secret)
    ensures RedactAll(s, secrets) == s
  {
    if secrets != [] {
      assert secrets[0] in secrets;
      RedactAllIdle(s, secrets[1..]);
    }
  }

  lemma {:induction false} MaskAllIdle(s: string, patterns: seq<Pattern>)
    requires forall k | 0 <= k < |patterns| :: patterns[k](s) == []
    ensures MaskAll(s, patterns) == s
  {
    if patterns != [] {
      assert patterns[0](s) == [];
      MaskAllIdle(s, patterns[1..]);
    }
  }

  /** Text in which there is nothing to cut passes unchanged, up to the length bound that holds of every text. */
  lemma PlainTextPasses(s: string, secrets: seq<string>, patterns: seq<Pattern>)
    ensures |RedactText(s, secrets, patterns)| <= MAX_SAFE_TEXT_LENGTH + 1
    ensures (forall secret | secret in secrets :: secret == [] || !Contains(s, secret))
            && (forall k | 0 <= k < |patterns| :: patterns[k](s) == []) ==>
              RedactText(s, secrets, patterns) ==
                if |s| <= MAX_SAFE_TEXT_LENGTH then s else s[..MAX_SAFE_TEXT_LENGTH] + ELLIPSIS
  {
    if (forall secret | secret in secrets :: secret == [] || !Contains(s, secret))
       && (forall k | 0 <= k < |patterns| :: patterns[k](s) == []) {
      RedactAllIdle(s, secrets);
      MaskAllIdle(s, patterns);
    }
  }
}
