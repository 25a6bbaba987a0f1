/** The three character scanners of the execution policy: the chain splitter and the redirection
    scan, which know quotes only, and the tokenizer, which also knows backslash escapes. */
module ShellScanners {
  import opened Strings

  // ---- Whitespace and trimming ----

  /** The characters JavaScript's `\s` matches and `trim` removes. */
  predicate IsSpace(c: char) {
    c == ' ' || c == '\t' || c == '\n' || c == '\r' || c == '\U{b}' || c == '\U{c}' || c == '\U{a0}'
    || c == '\U{1680}' || '\U{2000}' <= c <= '\U{200a}' || c == '\U{2028}' || c == '\U{2029}'
    || c == '\U{202f}' || c == '\U{205f}' || c == '\U{3000}' || c == '\U{feff}'
  }

  predicate AllSpaces(s: string) {
    forall i | 0 <= i < |s| :: IsSpace(s[i])
  }

  /** The first index from `i` on that holds no space. */
  function SkipSpaces(s: string, i: nat): (k: nat)
    requires i <= |s|
    ensures i <= k <= |s|
    ensures forall j | i <= j < k :: IsSpace(s[j])
    ensures k < |s| ==> !IsSpace(s[k])
    decreases |s| - i
  {
    if i < |s| && IsSpace(s[i]) then SkipSpaces(s, i + 1) else i
  }

  function DropSpaces(s: string, lo: nat, hi: nat): (k: nat)
    requires lo <= hi <= |s|
    ensures lo <= k <= hi
    ensures forall j | k <= j < hi :: IsSpace(s[j])
    ensures k > lo ==> !IsSpace(s[k - 1])
  {
    if lo < hi && IsSpace(s[hi - 1]) then DropSpaces(s, lo, hi - 1) else hi
  }

  function Trim(s: string): string {
    var a := SkipSpaces(s, 0);
    s[a..DropSpaces(s, a, |s|)]
  }

  predicate Trimmed(s: string) {
    s != [] ==> !IsSpace(s[0]) && !IsSpace(s[|s| - 1])
  }

  lemma TrimIsTrimmed(s: string)
    ensures Trimmed(Trim(s))
    ensures Trimmed(s) ==> Trim(s) == s
    ensures Trim(s) == [] <==> AllSpaces(s)
  {
  }

  // ---- Quoting without escapes: the splitter and the redirection scan ----

  datatype Quote = Plain | Single | Double

  function Toggle(q: Quote, c: char): Quote {
    if c == '\'' && q != Double then (if q == Single then Plain else Single)
    else if c == '"' && q != Single then (if q == Double then Plain else Double)
    else q
  }

  /** The quote state in front of position `i`. */
  function QuoteAt(s: string, i: nat): Quote
    requires i <= |s|
  {
    if i == 0 then Plain else Toggle(QuoteAt(s, i - 1), s[i - 1])
  }

  lemma {:induction false} QuoteAtSlice(s: string, a: nat, b: nat, k: nat)
    requires a <= b <= |s| && k <= b - a && QuoteAt(s, a) == Plain
    ensures QuoteAt(s[a..b], k) == QuoteAt(s, a + k)
  {
    if k == 0 {
    } else {
      QuoteAtSlice(s, a, b, k - 1);
      assert s[a..b][k - 1] == s[a + k - 1];
    }
  }

  lemma {:induction false} SpacesKeepQuote(s: string, a: nat, b: nat)
    requires a <= b <= |s| && forall j | a <= j < b :: IsSpace(s[j])
    ensures QuoteAt(s, b) == QuoteAt(s, a)
  {
    if a == b {
    } else {
      SpacesKeepQuote(s, a, b - 1);
      assert IsSpace(s[b - 1]);
    }
  }

  // ---- The chain splitter ----

  predicate DoubledAt(s: string, i: nat, c: char) {
    i + 1 < |s| && s[i] == c && s[i + 1] == c
  }

  /** A chaining operator starts at `i`: `&&`, `||`, `;` or `|`. */
  predicate OperatorAt(s: string, i: nat)
    requires i < |s|
  {
    DoubledAt(s, i, '&') || s[i] == ';' || s[i] == '|'
  }

  function OperatorLength(s: string, i: nat): nat
    requires i < |s|
  {
    if DoubledAt(s, i, '&') || DoubledAt(s, i, '|') then 2 else 1
  }

  function Emit(piece: string): seq<string> {
    if Trim(piece) == [] then [] else [Trim(piece)]
  }

  /** The segments of `t` from `start` on, the scan having reached `i`. */
  function SplitFrom(t: string, start: nat, i: nat): seq<string>
    requires start <= i <= |t|
    decreases |t| - i
  {
    if i == |t| then Emit(t[start..])
    else if QuoteAt(t, i) == Plain && OperatorAt(t, i) then
      var n := i + OperatorLength(t, i);
      Emit(t[start..i]) + SplitFrom(t, n, n)
    else SplitFrom(t, start, i + 1)
  }

  function SplitChains(command: string): seq<string> {
    SplitFrom(Trim(command), 0, 0)
  }

  method Push(commands: seq<string>, current: string) returns (r: seq<string>)
    ensures r == commands + Emit(current)
  {
    r := commands;
    if Trim(current) != [] {
      r := r + [Trim(current)];
    }
  }

  function QuoteOf(inSingle: bool, inDouble: bool): Quote {
    if inSingle then Single else if inDouble then Double else Plain
  }

  /** The two quote flags after reading a character. */
  method ToggleFlags(ch: char, inSingle: bool, inDouble: bool) returns (single: bool, double: bool)
    requires !(inSingle && inDouble)
    ensures !(single && double)
    ensures QuoteOf(single, double) == Toggle(QuoteOf(inSingle, inDouble), ch)
  {
    single, double := inSingle, inDouble;
    if ch == '\'' && !inDouble {
      single := !inSingle;
    } else if ch == '"' && !inSingle {
      double := !inDouble;
    }
  }

  /** The scan of `t` stands at `i`, `current` being the open segment and `commands` the closed ones. */
  ghost predicate Splitting(t: string, start: nat, i: nat, current: string, commands: seq<string>) {
    start <= i <= |t| && current == t[start..i] && commands + SplitFrom(t, start, i) == SplitFrom(t, 0, 0)
  }

  lemma StartSegments(t: string)
    ensures Splitting(t, 0, 0, "", []) && QuoteAt(t, 0) == Plain
  {
  }

  lemma ExtendSegment(t: string, start: nat, i: nat, current: string, commands: seq<string>)
    requires Splitting(t, start, i, current, commands) && i < |t|
    requires !(QuoteAt(t, i) == Plain && OperatorAt(t, i))
    ensures Splitting(t, start, i + 1, current + [t[i]], commands)
  {
    hide SplitFrom, QuoteAt, OperatorAt;
    SplitSkips(t, start, i);
    SliceExtends(t, start, i);
  }

  lemma NoOperator(t: string, i: nat)
    requires i < |t| && (QuoteAt(t, i) != Plain || t[i] == '\'' || t[i] == '"')
    ensures !(QuoteAt(t, i) == Plain && OperatorAt(t, i))
  {
    hide QuoteAt;
  }

  lemma SliceExtends<T>(t: seq<T>, start: nat, i: nat)
    requires start <= i < |t|
    ensures t[start..i + 1] == t[start..i] + [t[i]]
  {
  }

  lemma SplitSkips(t: string, start: nat, i: nat)
    requires start <= i < |t| && !(QuoteAt(t, i) == Plain && OperatorAt(t, i))
    ensures SplitFrom(t, start, i) == SplitFrom(t, start, i + 1)
  {
    hide Emit, QuoteAt;
  }

  lemma SplitAtEnd(t: string, start: nat)
    requires start <= |t|
    ensures SplitFrom(t, start, |t|) == Emit(t[start..|t|])
  {
    hide Emit, QuoteAt;
    assert t[start..] == t[start..|t|];
  }

  lemma QuoteStep(t: string, i: nat)
    requires i < |t|
    ensures QuoteAt(t, i + 1) == Toggle(QuoteAt(t, i), t[i])
  {
  }

  lemma PlainAfterOperator(t: string, i: nat)
    requires i < |t| && QuoteAt(t, i) == Plain && OperatorAt(t, i)
    ensures i + OperatorLength(t, i) <= |t|
    ensures QuoteAt(t, i + OperatorLength(t, i)) == Plain
  {
    hide QuoteAt;
    QuoteStep(t, i);
    if OperatorLength(t, i) == 2 {
      QuoteStep(t, i + 1);
    }
  }

  lemma CloseSegment(t: string, start: nat, i: nat, current: string, commands: seq<string>)
    requires Splitting(t, start, i, current, commands) && i < |t|
    requires QuoteAt(t, i) == Plain && OperatorAt(t, i)
    ensures var n := i + OperatorLength(t, i);
            n <= |t| && QuoteAt(t, n) == Plain && Splitting(t, n, n, "", commands + Emit(current))
  {
    PlainAfterOperator(t, i);
    SplitAtOperator(t, start, i);
    hide SplitFrom, Emit, QuoteAt, OperatorAt, OperatorLength;
    var n := i + OperatorLength(t, i);
    Regroup(commands, Emit(current), SplitFrom(t, n, n));
  }

  lemma SplitAtOperator(t: string, start: nat, i: nat)
    requires start <= i < |t| && QuoteAt(t, i) == Plain && OperatorAt(t, i)
    ensures i + OperatorLength(t, i) <= |t|
    ensures var n := i + OperatorLength(t, i); SplitFrom(t, start, i) == Emit(t[start..i]) + SplitFrom(t, n, n)
  {
    hide Emit, QuoteAt;
  }

  lemma Regroup<T>(a: seq<T>, b: seq<T>, c: seq<T>)
    ensures a + (b + c) == a + b + c
  {
  }

  lemma FinishSegments(t: string, start: nat, current: string, commands: seq<string>)
    requires Splitting(t, start, |t|, current, commands)
    ensures commands + Emit(current) == SplitFrom(t, 0, 0)
  {
    hide SplitFrom, Emit;
    SplitAtEnd(t, start);
  }

  method SplitShellChains(command: string) returns (commands: seq<string>)
    ensures commands == SplitChains(command)
  {
    var trimmed := Trim(command);
    commands := [];
    var current := "";
    var inSingleQuote, inDoubleQuote := false, false;
    ghost var start: nat := 0;
    StartSegments(trimmed);
    hide Splitting, SplitFrom, Emit, Trim, QuoteAt;
    var i: nat := 0;
    while i < |trimmed|
      invariant i <= |trimmed|
      invariant Splitting(trimmed, start, i, current, commands)
      invariant QuoteAt(trimmed, i) == QuoteOf(inSingleQuote, inDoubleQuote) && !(inSingleQuote && inDoubleQuote)
    {
      var ch := trimmed[i];
      if inSingleQuote || inDoubleQuote || ch == '\'' || ch == '"' {
        QuoteStep(trimmed, i);
        NoOperator(trimmed, i);
        ExtendSegment(trimmed, start, i, current, commands);
        inSingleQuote, inDoubleQuote := ToggleFlags(ch, inSingleQuote, inDoubleQuote);
        current := current + [ch];
        i := i + 1;
      } else if DoubledAt(trimmed, i, '&') || DoubledAt(trimmed, i, '|') {
        CloseSegment(trimmed, start, i, current, commands);
        commands := Push(commands, current);
        current := "";
        i := i + 2;
        start := i;
      } else if ch == ';' || ch == '|' {
        CloseSegment(trimmed, start, i, current, commands);
        commands := Push(commands, current);
        current := "";
        i := i + 1;
        start := i;
      } else {
        QuoteStep(trimmed, i);
        ExtendSegment(trimmed, start, i, current, commands);
        current := current + [ch];
        i := i + 1;
      }
    }
    FinishSegments(trimmed, start, current, commands);
    commands := Push(commands, current);
  }

  /** No chaining operator outside quotes. */
  predicate Unchained(u: string) {
    forall i | 0 <= i < |u| :: QuoteAt(u, i) == Plain ==> !OperatorAt(u, i)
  }

  lemma {:induction false} UnchainedFrom(u: string, i: nat)
    requires i <= |u| && Unchained(u)
    ensures SplitFrom(u, 0, i) == Emit(u)
    decreases |u| - i
  {
    hide SplitFrom, Emit, QuoteAt;
    if i == |u| {
      SplitAtEnd(u, 0);
      assert u[0..|u|] == u;
    } else {
      SplitSkips(u, 0, i);
      UnchainedFrom(u, i + 1);
    }
  }

  /** A trimmed, non-empty, unchained text is a fixed point of splitting. */
  lemma UnchainedIsFixed(u: string)
    requires u != [] && Trimmed(u) && Unchained(u)
    ensures SplitChains(u) == [u]
  {
    TrimIsTrimmed(u);
    UnchainedFrom(u, 0);
  }

  ghost predicate GoodSegment(u: string) {
    u != [] && Trimmed(u) && Unchained(u)
  }

  lemma TrimIn(t: string, start: nat, i: nat) returns (lo: nat, hi: nat)
    requires start <= i <= |t|
    ensures start <= lo <= hi <= i && Trim(t[start..i]) == t[lo..hi]
    ensures forall j | start <= j < lo :: IsSpace(t[j])
  {
    var piece := t[start..i];
    var a := SkipSpaces(piece, 0);
    var b := DropSpaces(piece, a, |piece|);
    lo, hi := start + a, start + b;
    SliceOfSlice(t, start, i, a, b);
    forall j | start <= j < lo ensures IsSpace(t[j]) {
      assert piece[j - start] == t[j];
    }
  }

  ghost predicate NoOperatorIn(t: string, lo: nat, hi: nat)
    requires hi <= |t|
  {
    forall j | lo <= j < hi :: QuoteAt(t, j) == Plain ==> !OperatorAt(t, j)
  }

  lemma SliceUnchained(t: string, lo: nat, hi: nat)
    requires lo <= hi <= |t| && QuoteAt(t, lo) == Plain
    requires NoOperatorIn(t, lo, hi)
    ensures Unchained(t[lo..hi])
  {
    var u := t[lo..hi];
    forall k | 0 <= k < |u|
      ensures QuoteAt(u, k) == Plain ==> !OperatorAt(u, k)
    {
      QuoteAtSlice(t, lo, hi, k);
      assert u[k] == t[lo + k];
      assert k + 1 < |u| ==> u[k + 1] == t[lo + k + 1];
    }
  }

  lemma TrimmedUnchained(t: string, start: nat, i: nat)
    requires start <= i <= |t| && QuoteAt(t, start) == Plain
    requires NoOperatorIn(t, start, i)
    ensures Unchained(Trim(t[start..i]))
  {
    var lo, hi := TrimIn(t, start, i);
    SpacesKeepQuote(t, start, lo);
    SliceUnchained(t, lo, hi);
  }

  lemma EmitGood(t: string, start: nat, i: nat)
    requires start <= i <= |t| && QuoteAt(t, start) == Plain
    requires NoOperatorIn(t, start, i)
    ensures forall u | u in Emit(t[start..i]) :: GoodSegment(u)
  {
    TrimIsTrimmed(t[start..i]);
    TrimmedUnchained(t, start, i);
  }

  lemma {:induction false} SegmentsGood(t: string, start: nat, i: nat)
    requires start <= i <= |t| && QuoteAt(t, start) == Plain
    requires NoOperatorIn(t, start, i)
    ensures forall u | u in SplitFrom(t, start, i) :: GoodSegment(u)
    decreases |t| - i
  {
    hide SplitFrom, Emit, QuoteAt, GoodSegment;
    if i == |t| {
      EmitGood(t, start, i);
      SplitAtEnd(t, start);
    } else if QuoteAt(t, i) == Plain && OperatorAt(t, i) {
      EmitGood(t, start, i);
      PlainAfterOperator(t, i);
      SplitAtOperator(t, start, i);
      var n := i + OperatorLength(t, i);
      SegmentsGood(t, n, n);
    } else {
      SplitSkips(t, start, i);
      SegmentsGood(t, start, i + 1);
    }
  }

  /** Every segment is trimmed, non-empty, and splits into itself alone. */
  lemma SegmentsAreFixedPoints(command: string, u: string)
    requires u in SplitChains(command)
    ensures u != [] && Trimmed(u) && Unchained(u) && SplitChains(u) == [u]
  {
    SegmentsGood(Trim(command), 0, 0);
    UnchainedIsFixed(u);
  }

  // ---- When there is nothing to run ----

  /** From `i` on, nothing but whitespace and chaining operators. */
  predicate OnlySeparators(t: string, i: nat)
    requires i <= |t|
    decreases |t| - i
  {
    i == |t|
    || (OperatorAt(t, i) && OnlySeparators(t, i + OperatorLength(t, i)))
    || (!OperatorAt(t, i) && IsSpace(t[i]) && OnlySeparators(t, i + 1))
  }

  lemma BlankEmitsNothing(t: string, start: nat, i: nat)
    requires start <= i <= |t| && forall j | start <= j < i :: IsSpace(t[j])
    ensures Emit(t[start..i]) == []
  {
  }

  lemma {:induction false} EmptySplitExact(t: string, start: nat, i: nat)
    requires start <= i <= |t| && QuoteAt(t, i) == Plain && forall j | start <= j < i :: IsSpace(t[j])
    ensures SplitFrom(t, start, i) == [] <==> OnlySeparators(t, i)
    decreases |t| - i
  {
    hide SplitFrom, Emit, QuoteAt;
    if i == |t| {
      SplitAtEnd(t, start);
      BlankEmitsNothing(t, start, i);
    } else if OperatorAt(t, i) {
      BlankEmitsNothing(t, start, i);
      PlainAfterOperator(t, i);
      SplitAtOperator(t, start, i);
      var n := i + OperatorLength(t, i);
      EmptySplitExact(t, n, n);
    } else if IsSpace(t[i]) {
      QuoteStep(t, i);
      SplitSkips(t, start, i);
      EmptySplitExact(t, start, i + 1);
    } else {
      NonSpaceEmits(t, start, i, i);
    }
  }

  /** A character of the open segment that is no space ends up in some segment. */
  lemma {:induction false} NonSpaceEmits(t: string, start: nat, k: nat, i: nat)
    requires start <= k <= i <= |t| && k < |t| && !IsSpace(t[k])
    requires k == i ==> !(QuoteAt(t, i) == Plain && OperatorAt(t, i))
    ensures SplitFrom(t, start, i) != []
    decreases |t| - i
  {
    hide SplitFrom, Emit, QuoteAt;
    if i == |t| {
      SplitAtEnd(t, start);
      NonSpaceKept(t, start, k, i);
    } else if QuoteAt(t, i) == Plain && OperatorAt(t, i) {
      NonSpaceKept(t, start, k, i);
      SplitAtOperator(t, start, i);
    } else {
      SplitSkips(t, start, i);
      NonSpaceEmits(t, start, k, i + 1);
    }
  }

  lemma NonSpaceKept(t: string, start: nat, k: nat, i: nat)
    requires start <= k < i <= |t| && !IsSpace(t[k])
    ensures Emit(t[start..i]) != []
  {
    var piece := t[start..i];
    assert piece[k - start] == t[k];
    TrimIsTrimmed(piece);
  }

  /** A command has no segment at all exactly when it is made of separators. */
  lemma NoSegmentsExactly(command: string)
    ensures SplitChains(command) == [] <==> OnlySeparators(Trim(command), 0)
  {
    EmptySplitExact(Trim(command), 0, 0);
  }

  // ---- Redirection scan and the other dangerous shapes ----

  predicate HasRedirection(s: string) {
    exists i | 0 <= i < |s| :: QuoteAt(s, i) == Plain && (s[i] == '>' || s[i] == '<')
  }

  method ScanRedirection(command: string) returns (found: bool)
    ensures found == HasRedirection(command)
  {
    var inSingle, inDouble := false, false;
    for i := 0 to |command|
      invariant QuoteAt(command, i) == QuoteOf(inSingle, inDouble) && !(inSingle && inDouble)
      invariant forall j | 0 <= j < i :: !(QuoteAt(command, j) == Plain && (command[j] == '>' || command[j] == '<'))
    {
      var ch := command[i];
      if ch == '\'' && !inDouble {
        inSingle := !inSingle;
      } else if ch == '"' && !inSingle {
        inDouble := !inDouble;
      } else if !inSingle && !inDouble && (ch == '>' || ch == '<') {
        return true;
      }
    }
    return false;
  }

  /** `/`[^`]+`/` */
  predicate HasBacktickSpan(s: string) {
    exists i | 0 <= i < |s| :: s[i] == '`'
      && exists j | i + 1 < j < |s| :: s[j] == '`' && forall k | i < k < j :: s[k] != '`'
  }

  /** An ampersand without an ampersand on either side, quoted or not. */
  predicate HasLoneAmpersand(s: string) {
    exists i | 0 <= i < |s| :: LoneAmpersandAt(s, i)
  }

  predicate LoneAmpersandAt(s: string, i: nat)
    requires i < |s|
  {
    s[i] == '&' && (i == 0 || s[i - 1] != '&') && (i + 1 == |s| || s[i + 1] != '&')
  }

  predicate Dangerous(s: string) {
    HasRedirection(s) || Contains(s, "$(") || HasBacktickSpan(s)
    || Contains(s, "<(") || Contains(s, ">(") || '\n' in s || HasLoneAmpersand(s)
  }

  /** `sh -c`, `bash -c`, ... at the start of a trimmed command. */
  predicate ShellWrapper(t: string) {
    WrapperNamed(t, "sh") || WrapperNamed(t, "bash") || WrapperNamed(t, "zsh")
    || WrapperNamed(t, "dash") || WrapperNamed(t, "ksh")
  }

  predicate WrapperNamed(t: string, name: string) {
    StartsWith(t, name)
    && var k := SkipSpaces(t, |name|);
       k > |name| && At(t, k, "-c") && k + 2 < |t| && IsSpace(t[k + 2])
  }

  // ---- The tokenizer ----

  datatype Scan = Scan(quote: Quote, escaped: bool)

  function Advance(st: Scan, c: char): Scan {
    if st.escaped then Scan(st.quote, false)
    else if c == '\\' && st.quote != Single then Scan(st.quote, true)
    else Scan(Toggle(st.quote, c), false)
  }

  /** The tokenizer's state in front of position `i`. */
  function ScanAt(s: string, i: nat): Scan
    requires i <= |s|
  {
    if i == 0 then Scan(Plain, false) else Advance(ScanAt(s, i - 1), s[i - 1])
  }

  function Flush(current: string): seq<string> {
    if current == [] then [] else [current]
  }

  function TokensFrom(s: string, current: string, st: Scan): seq<string>
    decreases |s|
  {
    if s == [] then Flush(current)
    else
      var c, next := s[0], Advance(st, s[0]);
      if st.escaped then TokensFrom(s[1..], current + [c], next)
      else if next != st then TokensFrom(s[1..], current, next)
      else if IsSpace(c) && st.quote == Plain then Flush(current) + TokensFrom(s[1..], "", next)
      else TokensFrom(s[1..], current + [c], next)
  }

  function Tokens(command: string): seq<string> {
    TokensFrom(command, "", Scan(Plain, false))
  }

  method TokenizeCommand(command: string) returns (tokens: seq<string>)
    ensures tokens == Tokens(command)
  {
    tokens := [];
    var current := "";
    var inSingleQuote, inDoubleQuote, escaped := false, false, false;
    for i := 0 to |command|
      invariant !(inSingleQuote && inDoubleQuote) && (escaped ==> !inSingleQuote)
      invariant tokens + TokensFrom(command[i..], current, Scan(QuoteOf(inSingleQuote, inDoubleQuote), escaped)) == Tokens(command)
    {
      var ch := command[i];
      assert command[i..][1..] == command[i + 1..];
      if escaped {
        current := current + [ch];
        escaped := false;
      } else if ch == '\\' && !inSingleQuote {
        escaped := true;
      } else if ch == '\'' && !inDoubleQuote {
        inSingleQuote := !inSingleQuote;
      } else if ch == '"' && !inSingleQuote {
        inDoubleQuote := !inDoubleQuote;
      } else if IsSpace(ch) && !inSingleQuote && !inDoubleQuote {
        if |current| > 0 {
          tokens := tokens + [current];
          current := "";
        }
      } else {
        current := current + [ch];
      }
    }
    if |current| > 0 {
      tokens := tokens + [current];
    }
  }

  /** Inside single quotes every character is literal. */
  lemma {:induction false} SingleQuotedBody(body: string, rest: string, current: string)
    requires '\'' !in body
    ensures TokensFrom(body + rest, current, Scan(Single, false)) == TokensFrom(rest, current + body, Scan(Single, false))
    decreases |body|
  {
    if body == [] {
      assert body + rest == rest && current + body == current;
    } else {
      assert (body + rest)[1..] == body[1..] + rest;
      assert body[0] in body;
      SingleQuotedBody(body[1..], rest, current + [body[0]]);
      assert current + [body[0]] + body[1..] == current + body;
    }
  }

  function Quoted(token: string): string {
    "'" + token + "'"
  }

  function QuotedAll(tokens: seq<string>): string {
    if tokens == [] then ""
    else if |tokens| == 1 then Quoted(tokens[0])
    else Quoted(tokens[0]) + " " + QuotedAll(tokens[1..])
  }

  lemma QuotedToken(token: string, rest: string)
    requires '\'' !in token
    ensures TokensFrom(Quoted(token) + rest, "", Scan(Plain, false)) == TokensFrom(rest, token, Scan(Plain, false))
  {
    var s := Quoted(token) + rest;
    var closing := "'" + rest;
    assert s[1..] == token + closing;
    SingleQuotedBody(token, closing, "");
    assert "" + token == token;
    assert closing[1..] == rest;
  }

  /** Tokenizing undoes single-quoting: any non-empty arguments without a single quote come back unchanged. */
  lemma {:induction false} TokenizeInvertsQuoting(tokens: seq<string>)
    requires forall i | 0 <= i < |tokens| :: tokens[i] != [] && '\'' !in tokens[i]
    ensures Tokens(QuotedAll(tokens)) == tokens
    decreases |tokens|
  {
    if tokens == [] {
    } else {
      var t := tokens[0];
      if |tokens| == 1 {
        QuotedToken(t, "");
        assert Quoted(t) + "" == Quoted(t);
      } else {
        var later := " " + QuotedAll(tokens[1..]);
        QuotedToken(t, later);
        assert Quoted(t) + later == QuotedAll(tokens);
        assert later[1..] == QuotedAll(tokens[1..]);
        TokenizeInvertsQuoting(tokens[1..]);
        assert [t] + tokens[1..] == tokens;
      }
    }
  }

  // ---- Agreement of the scanners ----

  /** A backslash hides a quote character that would have opened or closed a quotation. */
  predicate EscapedQuoteAt(s: string, i: nat)
    requires i < |s|
  {
    ScanAt(s, i).escaped && Toggle(ScanAt(s, i).quote, s[i]) != ScanAt(s, i).quote
  }

  predicate HasEscapedQuote(s: string) {
    exists i | 0 <= i < |s| :: EscapedQuoteAt(s, i)
  }

  lemma {:induction false} AgreeUpTo(s: string, i: nat)
    requires i <= |s| && forall j | 0 <= j < i :: !EscapedQuoteAt(s, j)
    ensures ScanAt(s, i).quote == QuoteAt(s, i)
  {
    if i == 0 {
    } else {
      AgreeUpTo(s, i - 1);
      assert !EscapedQuoteAt(s, i - 1);
    }
  }

  predicate AgreeAt(s: string, i: nat)
    requires i <= |s|
  {
    ScanAt(s, i).quote == QuoteAt(s, i)
  }

  /** The tokenizer sees the same quotation at every position as the other two scanners exactly when
      no backslash hides an active quote. */
  lemma ScannersAgreeExactly(s: string)
    ensures (forall i | 0 <= i <= |s| :: AgreeAt(s, i)) <==> !HasEscapedQuote(s)
  {
    if HasEscapedQuote(s) {
      var i :| 0 <= i < |s| && EscapedQuoteAt(s, i);
      if AgreeAt(s, i) {
        assert !AgreeAt(s, i + 1);
      }
    } else {
      forall i | 0 <= i <= |s| ensures AgreeAt(s, i) {
        AgreeUpTo(s, i);
      }
    }
  }

  lemma BackslashFreeAgrees(s: string)
    requires '\\' !in s
    ensures !HasEscapedQuote(s)
  {
  }

  // ---- Operators left in a segment are quoted ----

  predicate IsOperatorChar(c: char) {
    c == ';' || c == '|' || c == '&' || c == '<' || c == '>'
  }

  lemma OperatorsQuoted(u: string, i: nat)
    requires Unchained(u) && !HasRedirection(u) && !HasLoneAmpersand(u)
    requires i < |u| && IsOperatorChar(u[i])
    ensures QuoteAt(u, i) != Plain
  {
    assert !LoneAmpersandAt(u, i);
    if i > 0 && u[i - 1] == '&' {
      assert QuoteAt(u, i) == Toggle(QuoteAt(u, i - 1), u[i - 1]);
      assert u[i] == '&' ==> OperatorAt(u, i - 1);
    }
  }
}
