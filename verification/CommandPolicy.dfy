/** Classification of a command line: every chained segment must be provably safe on its own. */
module CommandPolicy {
  import opened Strings
  import opened Governance
  import opened ShellScanners
  import opened ShellChains

  datatype Policy = Policy(
    allowedRoot: string, deniedPaths: seq<string>, allowedCommands: seq<string>,
    trustedCodingAgentAliases: Option<seq<string>>, trustedReviewerAgentAliases: Option<seq<string>>,
    allowNetwork: bool, allowGitCommit: bool, allowGitPush: bool)

  datatype Verdict = Verdict(allowed: bool, reasonCode: ReasonCode)

  const ALLOW := Verdict(true, POLICY_ALLOWED)
  const NOT_ALLOWED := Verdict(false, COMMAND_NOT_ALLOWED)

  const SAFE_SCRIPTS := ["test", "build", "lint", "typecheck", "check", "generate"]
  const SAFE_GIT_SUBCOMMANDS := ["status", "diff", "show", "log", "rev-parse"]

  function TokenAt(tokens: seq<string>, i: nat): string {
    if i < |tokens| then tokens[i] else ""
  }

  predicate MatchesAllowed(tokens: seq<string>, allowedCommands: seq<string>) {
    tokens != []
    && var full := Join(tokens, " ");
       || (exists i | 0 <= i < |allowedCommands| ::
             full == allowedCommands[i] || StartsWith(full, allowedCommands[i] + " "))
       || (tokens[0] in ["pnpm", "npm"] && |tokens| >= 3 && tokens[1] == "run" && tokens[2] in SAFE_SCRIPTS)
       || (tokens[0] == "yarn" && |tokens| >= 2
           && (if tokens[1] == "run" then TokenAt(tokens, 2) in SAFE_SCRIPTS
               else |tokens| == 2 && tokens[1] in SAFE_SCRIPTS))
  }

  function ClassifyGit(tokens: seq<string>): Verdict
    requires tokens != []
  {
    if |tokens| < 2 then NOT_ALLOWED
    else
      var sub, args := tokens[1], tokens[2..];
      if sub in SAFE_GIT_SUBCOMMANDS then ALLOW
      else if sub == "branch" then
        if "--show-current" in args then ALLOW
        else if "-D" in args || "-d" in args then Verdict(false, GIT_BRANCH_DELETE_DENIED)
        else ALLOW
      else if sub == "commit" then Verdict(false, GIT_COMMIT_DENIED)
      else if sub == "push" then
        if "--delete" in args || (exists i | 0 <= i < |args| :: StartsWith(args[i], ":"))
        then Verdict(false, REMOTE_REF_DELETE_DENIED)
        else Verdict(false, GIT_PUSH_DENIED)
      else if sub == "merge" then Verdict(false, GIT_MERGE_DENIED)
      else if sub == "rebase" then Verdict(false, GIT_REBASE_DENIED)
      else NOT_ALLOWED
  }

  function ClassifyTokens(tokens: seq<string>, policy: Policy): Verdict {
    if tokens == [] then NOT_ALLOWED
    else
      var first := tokens[0];
      if first == "git" then ClassifyGit(tokens)
      else if first == "node"
              && ("-e" in tokens || "--eval" in tokens || "--input-type" in tokens || TokenAt(tokens, 1) != "--version")
      then NOT_ALLOWED
      else if first == "npx" then
        if |tokens| >= 3 && tokens[1] == "prisma" && tokens[2] == "generate" then ALLOW else NOT_ALLOWED
      else if (first in ["npm", "pnpm"] && TokenAt(tokens, 1) == "exec") || (first == "yarn" && TokenAt(tokens, 1) == "dlx")
      then NOT_ALLOWED
      else if MatchesAllowed(tokens, policy.allowedCommands) then ALLOW
      else NOT_ALLOWED
  }

  function ClassifySingle(command: string, policy: Policy): Verdict {
    var trimmed := Trim(command);
    if trimmed == [] || ShellWrapper(trimmed) || Dangerous(trimmed) then NOT_ALLOWED
    else ClassifyTokens(Tokens(trimmed), policy)
  }

  /** The first refusal among the segments, or acceptance. */
  function ClassifyChain(segments: seq<string>, policy: Policy): Verdict {
    if segments == [] then ALLOW
    else if ShellWrapper(Trim(segments[0])) || Dangerous(segments[0]) then NOT_ALLOWED
    else
      var first := ClassifySingle(segments[0], policy);
      if !first.allowed then first else ClassifyChain(segments[1..], policy)
  }

  /** Exact whole-command match with a server-selected alias of the profile. */
  predicate IsAlias(trimmed: string, profile: Profile, policy: Policy) {
    || (profile.BUILDER? && policy.trustedCodingAgentAliases.Some? && trimmed in policy.trustedCodingAgentAliases.value)
    || (profile.REVIEWER? && policy.trustedReviewerAgentAliases.Some? && trimmed in policy.trustedReviewerAgentAliases.value)
  }

  function Classify(command: string, profile: Profile, policy: Policy): Verdict {
    var trimmed := Trim(command);
    if ShellWrapper(trimmed) || Dangerous(trimmed) then NOT_ALLOWED
    else if IsAlias(trimmed, profile, policy) then ALLOW
    else ClassifyChain(SplitChains(trimmed), policy)
  }

  method ClassifyCommand(command: string, profile: Profile, policy: Policy) returns (v: Verdict)
    ensures v == Classify(command, profile, policy)
  {
    var trimmed := Trim(command);
    if ShellWrapper(trimmed) {
      return NOT_ALLOWED;
    }
    if Dangerous(trimmed) {
      return NOT_ALLOWED;
    }
    if IsAlias(trimmed, profile, policy) {
      return ALLOW;
    }
    var chained := SplitShellChains(trimmed);
    for i := 0 to |chained|
      invariant ClassifyChain(chained, policy) == ClassifyChain(chained[i..], policy)
    {
      var cmd := chained[i];
      assert chained[i..][1..] == chained[i + 1..];
      if ShellWrapper(Trim(cmd)) || Dangerous(cmd) {
        return NOT_ALLOWED;
      }
      var result := ClassifySingle(cmd, policy);
      if !result.allowed {
        return result;
      }
    }
    return ALLOW;
  }

  // ---- What acceptance means ----

  lemma {:induction false} ChainAllowedExactly(segments: seq<string>, policy: Policy)
    ensures ClassifyChain(segments, policy).allowed <==>
            forall u | u in segments :: !ShellWrapper(Trim(u)) && !Dangerous(u) && ClassifySingle(u, policy).allowed
  {
    if segments == [] {
    } else {
      ChainAllowedExactly(segments[1..], policy);
      assert segments == [segments[0]] + segments[1..];
    }
  }

  lemma TrimTwice(s: string)
    ensures Trim(Trim(s)) == Trim(s)
  {
  }

  lemma SegmentsOfTrimmed(command: string, u: string)
    requires u in SplitChains(Trim(command))
    ensures u != [] && Trim(u) == u && Unchained(u) && SplitChains(u) == [u]
  {
    SegmentsAreFixedPoints(Trim(command), u);
    TrimIsTrimmed(u);
  }

  /** Outside the alias path a command is accepted exactly when the whole shows no dangerous shape and
      each of its segments, taken as a command of its own, is accepted. */
  lemma AcceptedExactlyBySegments(command: string, profile: Profile, policy: Policy)
    requires !IsAlias(Trim(command), profile, policy)
    ensures Classify(command, profile, policy).allowed <==>
            && !ShellWrapper(Trim(command)) && !Dangerous(Trim(command))
            && forall u | u in SplitChains(Trim(command)) :: ClassifyChain([u], policy).allowed
  {
    var segments := SplitChains(Trim(command));
    ChainAllowedExactly(segments, policy);
    forall u | u in segments
      ensures ClassifyChain([u], policy).allowed <==>
              !ShellWrapper(Trim(u)) && !Dangerous(u) && ClassifySingle(u, policy).allowed
    {
      ChainAllowedExactly([u], policy);
      assert [u][0] == u;
    }
  }

  /** Accepted, and not as a whole by an alias. */
  predicate AcceptedBySegments(command: string, profile: Profile, policy: Policy) {
    !IsAlias(Trim(command), profile, policy) && Classify(command, profile, policy).allowed
  }

  /** Each segment of an accepted command is accepted when it is submitted alone. */
  lemma SegmentAcceptedAlone(command: string, profile: Profile, policy: Policy)
    ensures AcceptedBySegments(command, profile, policy) ==>
              forall u | u in SplitChains(Trim(command)) :: Classify(u, profile, policy).allowed
  {
    if AcceptedBySegments(command, profile, policy) {
      forall u | u in SplitChains(Trim(command)) ensures Classify(u, profile, policy).allowed {
        AcceptedExactlyBySegments(command, profile, policy);
        SegmentsOfTrimmed(command, u);
        ChainAllowedExactly([u], policy);
        assert [u][0] == u;
      }
    }
  }

  /** Every operator character of the segment is quoted: for the quote-only scanners always, and for the
      tokenizer whenever no backslash hides an active quote. */
  ghost predicate OperatorsAllQuoted(u: string) {
    forall i | 0 <= i < |u| && IsOperatorChar(u[i]) ::
      QuoteAt(u, i) != Plain && (!HasEscapedQuote(u) || '\\' !in u ==> ScanAt(u, i).quote != Plain)
  }

  /** In an accepted command every remaining operator character is quoted. */
  lemma OperatorsOfAcceptedAreQuoted(command: string, profile: Profile, policy: Policy)
    ensures AcceptedBySegments(command, profile, policy) ==>
              forall u | u in SplitChains(Trim(command)) :: OperatorsAllQuoted(u)
  {
    if AcceptedBySegments(command, profile, policy) {
      forall u | u in SplitChains(Trim(command)) ensures OperatorsAllQuoted(u) {
        ChainAllowedExactly(SplitChains(Trim(command)), policy);
        SegmentsOfTrimmed(command, u);
        HarmlessSegment(u);
      }
    }
  }

  lemma HarmlessSegment(u: string)
    requires Unchained(u) && !Dangerous(u)
    ensures OperatorsAllQuoted(u)
  {
    forall i | 0 <= i < |u| && IsOperatorChar(u[i])
      ensures QuoteAt(u, i) != Plain && (!HasEscapedQuote(u) || '\\' !in u ==> ScanAt(u, i).quote != Plain)
    {
      OperatorsQuoted(u, i);
      if '\\' !in u {
        BackslashFreeAgrees(u);
      }
      if !HasEscapedQuote(u) {
        AgreeUpTo(u, i);
      }
    }
  }

  // ---- Chained commands and dangerous shapes ----

  /** Every segment of the command is accepted on its own. */
  predicate SegmentsAccepted(command: string, policy: Policy) {
    forall u | u in SplitChains(command) :: ClassifyChain([u], policy).allowed
  }

  /** A chained command is accepted exactly when the whole is presentable and every segment of either side
      is accepted, whatever the operator. */
  lemma ChainedAcceptedExactly(u: string, op: string, v: string, profile: Profile, policy: Policy)
    requires IsOperator(op) && QuoteAt(u, |u|) == Plain && !IsAlias(Trim(Chained(u, op, v)), profile, policy)
    ensures Classify(Chained(u, op, v), profile, policy).allowed <==>
              Presentable(Trim(Chained(u, op, v))) && SegmentsAccepted(u, policy) && SegmentsAccepted(v, policy)
  {
    hide Chained, SplitChains, QuoteAt, Trim, IsOperator, ClassifyChain, Classify, ShellWrapper, Dangerous;
    var t := Chained(u, op, v);
    ChainLaw(u, op, v);
    SplitTrimmed(t);
    AcceptedExactlyBySegments(t, profile, policy);
  }

  lemma SplitTrimmed(t: string)
    ensures SplitChains(Trim(t)) == SplitChains(t)
  {
    hide SplitFrom;
    TrimTwice(t);
  }

  /** So two accepted commands make an accepted chain unless the seam itself shows a dangerous shape. */
  lemma BothSidesSuffice(u: string, op: string, v: string, profile: Profile, policy: Policy)
    requires IsOperator(op) && QuoteAt(u, |u|) == Plain && Presentable(Trim(Chained(u, op, v)))
    requires AcceptedBySegments(u, profile, policy) && AcceptedBySegments(v, profile, policy)
    ensures Classify(Chained(u, op, v), profile, policy).allowed
  {
    hide Chained, SplitChains, QuoteAt, Trim, IsOperator, ClassifyChain, ShellWrapper, Dangerous, Classify;
    SplitTrimmed(u);
    SplitTrimmed(v);
    AcceptedExactlyBySegments(u, profile, policy);
    AcceptedExactlyBySegments(v, profile, policy);
    if !IsAlias(Trim(Chained(u, op, v)), profile, policy) {
      ChainedAcceptedExactly(u, op, v, profile, policy);
    } else {
      AliasAccepted(Chained(u, op, v), profile, policy);
    }
  }

  lemma AliasAccepted(command: string, profile: Profile, policy: Policy)
    requires IsAlias(Trim(command), profile, policy)
    ensures Classify(command, profile, policy).allowed <==> Presentable(Trim(command))
  {
    hide Trim, ShellWrapper, Dangerous, SplitChains;
  }

  predicate IsShell(name: string) {
    name in ["sh", "bash", "zsh", "dash", "ksh"]
  }

  /** No redirection outside quotes, no substitution, no line break, no ampersand on its own. */
  predicate QuietShape(t: string) {
    && (forall i | 0 <= i < |t| :: (t[i] == '<' || t[i] == '>') ==> QuoteAt(t, i) != Plain)
    && !Contains(t, "$(") && !Contains(t, "<(") && !Contains(t, ">(") && '\n' !in t
    && (forall i | 0 <= i < |t| :: t[i] == '&' ==> Ampersand(t, i - 1) || Ampersand(t, i + 1))
    && (forall i, j | 0 <= i && i + 1 < j < |t| :: t[i] == '`' && t[j] == '`' ==> '`' in t[i + 1..j])
  }

  predicate Ampersand(t: string, i: int) {
    0 <= i < |t| && t[i] == '&'
  }

  /** No command is accepted, by an alias or otherwise, that redirects, substitutes, breaks the line or runs
      in the background. */
  lemma AcceptedShapes(command: string, profile: Profile, policy: Policy)
    ensures Classify(command, profile, policy).allowed ==> QuietShape(Trim(command))
  {
    hide Trim, ClassifyChain, SplitChains, IsAlias, Dangerous, ShellWrapper;
    if Classify(command, profile, policy).allowed {
      NotDangerousMeans(Trim(command));
    }
  }

  lemma NotDangerousMeans(t: string)
    requires !Dangerous(t)
    ensures QuietShape(t)
  {
    hide QuoteAt;
    forall i | 0 <= i < |t| ensures t[i] == '&' ==> Ampersand(t, i - 1) || Ampersand(t, i + 1) {
      assert !LoneAmpersandAt(t, i);
    }
    forall i, j | 0 <= i && i + 1 < j < |t| ensures t[i] == '`' && t[j] == '`' ==> '`' in t[i + 1..j] {
      NoSpan(t, i, j);
    }
  }

  lemma NoSpan(t: string, i: nat, j: nat)
    requires i + 1 < j < |t| && !HasBacktickSpan(t)
    ensures t[i] == '`' && t[j] == '`' ==> '`' in t[i + 1..j]
  {
    if t[i] == '`' && t[j] == '`' && '`' !in t[i + 1..j] {
      assert forall k | i < k < j :: t[k] == t[i + 1..j][k - i - 1];
    }
  }

  /** A shell is not started with a command text, whichever blanks stand around its flag. */
  lemma ShellsRefused(command: string, name: string, blanks: string, c: char, rest: string, profile: Profile, policy: Policy)
    requires IsShell(name) && blanks != [] && AllSpaces(blanks) && IsSpace(c)
    requires Trim(command) == name + (blanks + ("-c" + ([c] + rest)))
    ensures !Classify(command, profile, policy).allowed
  {
    hide Trim, Dangerous, ClassifyChain, SplitChains, IsAlias, IsSpace;
    WrapperFound(name, blanks, c, rest);
    assert !IsSpace('-') by { Dash(); }
  }

  lemma Dash()
    ensures !IsSpace('-')
  {
  }

  lemma WrapperFound(name: string, blanks: string, c: char, rest: string)
    requires blanks != [] && AllSpaces(blanks) && IsSpace(c)
    ensures WrapperNamed(name + (blanks + ("-c" + ([c] + rest))), name)
  {
    hide IsSpace;
    Dash();
    var t := name + (blanks + ("-c" + ([c] + rest)));
    var n := |name| + |blanks|;
    assert t[..|name|] == name && t[n..n + 2] == "-c" && t[n + 2] == c && t[n] == '-';
    assert forall j | |name| <= j < n :: t[j] == blanks[j - |name|];
    assert SkipSpaces(t, |name|) == n;
  }

  // ---- What an allow list can and cannot decide ----

  predicate BareDeletion(args: seq<string>) {
    "-D" in args || "-d" in args
  }

  /** Token lists that no allow list can get accepted: git beyond reading and branches, branch deletion in
      its bare form, node beyond its version, foreign packages through npx, exec or yarn dlx. */
  predicate Barred(tokens: seq<string>) {
    || tokens == []
    || (tokens[0] == "git"
        && !(|tokens| >= 2
             && (tokens[1] in SAFE_GIT_SUBCOMMANDS
                 || (tokens[1] == "branch" && ("--show-current" in tokens[2..] || !BareDeletion(tokens[2..]))))))
    || (tokens[0] == "node"
        && !(|tokens| >= 2 && tokens[1] == "--version" && "-e" !in tokens && "--eval" !in tokens && "--input-type" !in tokens))
    || (tokens[0] == "npx" && !(|tokens| >= 3 && tokens[1] == "prisma" && tokens[2] == "generate"))
    || (tokens[0] in ["npm", "pnpm"] && |tokens| >= 2 && tokens[1] == "exec")
    || (tokens[0] == "yarn" && |tokens| >= 2 && tokens[1] == "dlx")
  }

  /** Token lists that are accepted without being on any allow list. */
  predicate Granted(tokens: seq<string>) {
    !Barred(tokens) && (tokens[0] == "git" || tokens[0] == "npx" || MatchesAllowed(tokens, []))
  }

  predicate Listed(tokens: seq<string>, list: seq<string>) {
    exists i | 0 <= i < |list| :: Join(tokens, " ") == list[i] || StartsWith(Join(tokens, " "), list[i] + " ")
  }

  predicate Accepts(tokens: seq<string>, policy: Policy, list: seq<string>) {
    ClassifyTokens(tokens, policy.(allowedCommands := list)).allowed
  }

  /** A token list is accepted exactly when it is not barred, and granted or on the list. */
  lemma AcceptsExactly(tokens: seq<string>, policy: Policy, list: seq<string>)
    ensures Accepts(tokens, policy, list) <==> !Barred(tokens) && (Granted(tokens) || Listed(tokens, list))
  {
    if tokens != [] {
      ListedOrScript(tokens, list);
    }
    hide MatchesAllowed, Listed;
  }

  lemma ListedOrScript(tokens: seq<string>, list: seq<string>)
    requires tokens != []
    ensures MatchesAllowed(tokens, list) <==> Listed(tokens, list) || MatchesAllowed(tokens, [])
  {
  }

  /** Accepted under every allow list means granted, under none means barred; between the two the list
      decides. */
  lemma AllowListDecides(tokens: seq<string>, policy: Policy)
    ensures (forall list :: Accepts(tokens, policy, list)) <==> Granted(tokens)
    ensures (forall list :: !Accepts(tokens, policy, list)) <==> Barred(tokens)
    ensures !Barred(tokens) && !Granted(tokens) ==> forall list :: Accepts(tokens, policy, list) <==> Listed(tokens, list)
  {
    hide Accepts, Barred, Granted;
    forall list ensures Accepts(tokens, policy, list) <==> !Barred(tokens) && (Granted(tokens) || Listed(tokens, list)) {
      AcceptsExactly(tokens, policy, list);
    }
    assert Barred(tokens) ==> !Granted(tokens) by { GrantedIsNotBarred(tokens); }
    assert !Listed(tokens, []);
    assert !Accepts(tokens, policy, []) || Granted(tokens);
    var own := [Join(tokens, " ")];
    assert own[0] == Join(tokens, " ") && Listed(tokens, own);
    assert Accepts(tokens, policy, own) || Barred(tokens);
  }

  lemma GrantedIsNotBarred(tokens: seq<string>)
    ensures Granted(tokens) ==> !Barred(tokens)
  {
  }

  /** Nothing in the segment but its words can get it refused. */
  predicate Presentable(u: string) {
    !ShellWrapper(u) && !Dangerous(u)
  }

  function WithList(policy: Policy, list: seq<string>): Policy {
    policy.(allowedCommands := list, trustedCodingAgentAliases := None, trustedReviewerAgentAliases := None)
  }

  lemma SegmentAcceptedExactly(u: string, policy: Policy, list: seq<string>)
    requires u != [] && Trim(u) == u
    ensures ClassifyChain([u], WithList(policy, list)).allowed <==> Presentable(u) && Accepts(Tokens(u), policy, list)
  {
    ChainAllowedExactly([u], WithList(policy, list));
    hide ShellWrapper, Dangerous, Tokens;
    assert [u][0] == u;
    assert ClassifyTokens(Tokens(u), WithList(policy, list)) == ClassifyTokens(Tokens(u), policy.(allowedCommands := list));
  }

  lemma CommandAcceptedExactly(command: string, profile: Profile, policy: Policy, list: seq<string>)
    ensures Classify(command, profile, WithList(policy, list)).allowed <==>
              && Presentable(Trim(command))
              && forall u | u in SplitChains(Trim(command)) :: Presentable(u) && Accepts(Tokens(u), policy, list)
  {
    AcceptedExactlyBySegments(command, profile, WithList(policy, list));
    forall u | u in SplitChains(Trim(command))
      ensures ClassifyChain([u], WithList(policy, list)).allowed <==> Presentable(u) && Accepts(Tokens(u), policy, list)
    {
      SegmentsOfTrimmed(command, u);
      SegmentAcceptedExactly(u, policy, list);
    }
  }

  /** A server-selected alias of the profile names the whole command. */
  predicate AliasOf(trimmed: string, profile: Profile, policy: Policy) {
    match profile
    case BUILDER => policy.trustedCodingAgentAliases.Some? && trimmed in policy.trustedCodingAgentAliases.value
    case REVIEWER => policy.trustedReviewerAgentAliases.Some? && trimmed in policy.trustedReviewerAgentAliases.value
    case _ => false
  }

  /** What it takes to have a command accepted, without reference to the classifier: no dangerous shape, and
      an alias, or words in each segment that are granted or listed and not barred. */
  predicate CommandCleared(command: string, profile: Profile, policy: Policy) {
    && Presentable(Trim(command))
    && (|| AliasOf(Trim(command), profile, policy)
        || forall u | u in SplitChains(Trim(command)) ::
             Presentable(u) && !Barred(Tokens(u)) && (Granted(Tokens(u)) || Listed(Tokens(u), policy.allowedCommands)))
  }

  lemma SegmentDecidedExactly(u: string, policy: Policy)
    requires u != [] && Trim(u) == u
    ensures ClassifyChain([u], policy).allowed <==>
              Presentable(u) && !Barred(Tokens(u)) && (Granted(Tokens(u)) || Listed(Tokens(u), policy.allowedCommands))
  {
    ChainAllowedExactly([u], policy);
    AcceptsExactly(Tokens(u), policy, policy.allowedCommands);
    hide ShellWrapper, Dangerous, Tokens, Barred, Granted, Listed, ClassifyTokens;
    assert [u][0] == u && policy.(allowedCommands := policy.allowedCommands) == policy;
  }

  /** The classifier accepts exactly the cleared commands. */
  lemma CommandDecidedExactly(command: string, profile: Profile, policy: Policy)
    ensures Classify(command, profile, policy).allowed <==> CommandCleared(command, profile, policy)
  {
    hide ShellWrapper, Dangerous, Tokens, Barred, Granted, Listed, SplitChains, Trim, ClassifyChain;
    assert AliasOf(Trim(command), profile, policy) <==> IsAlias(Trim(command), profile, policy);
    if !AliasOf(Trim(command), profile, policy) {
      AcceptedExactlyBySegments(command, profile, policy);
      forall u | u in SplitChains(Trim(command))
        ensures ClassifyChain([u], policy).allowed <==>
                  Presentable(u) && !Barred(Tokens(u)) && (Granted(Tokens(u)) || Listed(Tokens(u), policy.allowedCommands))
      {
        SegmentsOfTrimmed(command, u);
        SegmentDecidedExactly(u, policy);
      }
    }
  }

  predicate ListAccepts(command: string, profile: Profile, policy: Policy, list: seq<string>) {
    Classify(command, profile, WithList(policy, list)).allowed
  }

  /** Some allow list gets a command accepted exactly when the whole and all its segments are presentable
      and no segment is barred; then one list serves all segments. */
  lemma SomeListAcceptsExactly(command: string, profile: Profile, policy: Policy)
    ensures (exists list :: ListAccepts(command, profile, policy, list)) <==>
              && Presentable(Trim(command))
              && forall u | u in SplitChains(Trim(command)) :: Presentable(u) && !Barred(Tokens(u))
  {
    hide Presentable, Barred, Accepts, Classify, SplitChains, Tokens, Trim;
    var segments := SplitChains(Trim(command));
    forall list ensures ListAccepts(command, profile, policy, list) <==>
                          Presentable(Trim(command)) && forall u | u in segments :: Presentable(u) && Accepts(Tokens(u), policy, list) {
      CommandAcceptedExactly(command, profile, policy, list);
    }
    forall u, list ensures Accepts(Tokens(u), policy, list) ==> !Barred(Tokens(u)) {
      AcceptsExactly(Tokens(u), policy, list);
    }
    var all := Joined(segments);
    forall u | u in segments && !Barred(Tokens(u)) ensures Accepts(Tokens(u), policy, all) {
      JoinedLists(segments, u);
      AcceptsExactly(Tokens(u), policy, all);
    }
    if Presentable(Trim(command)) && forall u | u in segments :: Presentable(u) && !Barred(Tokens(u)) {
      assert ListAccepts(command, profile, policy, all);
    }
  }

  /** Every allow list, the empty one included, accepts a command exactly when the whole and all its
      segments are presentable and every segment is granted. */
  lemma EveryListAcceptsExactly(command: string, profile: Profile, policy: Policy)
    ensures (forall list :: ListAccepts(command, profile, policy, list)) <==>
              && Presentable(Trim(command))
              && forall u | u in SplitChains(Trim(command)) :: Presentable(u) && Granted(Tokens(u))
  {
    hide Presentable, Granted, Accepts, Classify, SplitChains, Tokens, Trim;
    var segments := SplitChains(Trim(command));
    forall list ensures ListAccepts(command, profile, policy, list) <==>
                          Presentable(Trim(command)) && forall u | u in segments :: Presentable(u) && Accepts(Tokens(u), policy, list) {
      CommandAcceptedExactly(command, profile, policy, list);
    }
    forall u ensures Granted(Tokens(u)) <==> forall list :: Accepts(Tokens(u), policy, list) {
      AllowListDecides(Tokens(u), policy);
    }
    forall u ensures Accepts(Tokens(u), policy, []) ==> Granted(Tokens(u)) {
      AcceptsExactly(Tokens(u), policy, []);
    }
    if forall list :: ListAccepts(command, profile, policy, list) {
      assert ListAccepts(command, profile, policy, []);
    }
  }

  /** The words of every segment, as an allow list. */
  function Joined(segments: seq<string>): seq<string> {
    seq(|segments|, i requires 0 <= i < |segments| => Join(Tokens(segments[i]), " "))
  }

  lemma JoinedLists(segments: seq<string>, u: string)
    requires u in segments
    ensures Listed(Tokens(u), Joined(segments))
  {
    hide Tokens;
    var i :| 0 <= i < |segments| && segments[i] == u;
    assert Joined(segments)[i] == Join(Tokens(u), " ");
  }

  /** Package runners and interpreters beyond those named are left to the allow list, and branches may be
      moved under every list. */
  lemma RunnersAreListed()
    ensures !Barred(["pnpm", "dlx", "x"]) && !Granted(["pnpm", "dlx", "x"])
    ensures !Barred(["python", "-c", "x"]) && !Granted(["python", "-c", "x"])
    ensures Granted(["git", "branch", "-f", "main", "x"])
  {
    assert ["git", "branch", "-f", "main", "x"][2..] == ["-f", "main", "x"];
  }

  // ---- Branch deletion ----

  /** An argument that makes `git branch` delete: the long flag, or a bundle of short flags with d or D. */
  predicate DeletionFlag(arg: string) {
    || arg == "--delete"
    || (|arg| >= 2 && arg[0] == '-' && arg[1] != '-' && ('d' in arg[1..] || 'D' in arg[1..]))
  }

  predicate Deletes(args: seq<string>) {
    exists i | 0 <= i < |args| :: DeletionFlag(args[i])
  }

  /** Words that need no quoting. */
  predicate WordChar(c: char) {
    'a' <= c <= 'z' || 'A' <= c <= 'Z' || '0' <= c <= '9' || c == '-' || c == '_' || c == '/' || c == '.'
  }

  predicate Words(tokens: seq<string>) {
    forall i | 0 <= i < |tokens| :: tokens[i] != [] && forall j | 0 <= j < |tokens[i]| :: WordChar(tokens[i][j])
  }

  predicate QuotedChar(c: char) {
    WordChar(c) || c == '\'' || c == ' '
  }

  lemma {:induction false} QuotedChars(tokens: seq<string>)
    requires Words(tokens) && tokens != []
    ensures var q := QuotedAll(tokens);
            |q| >= 2 && q[0] == '\'' && q[|q| - 1] == '\'' && forall i | 0 <= i < |q| :: QuotedChar(q[i])
    decreases |tokens|
  {
    var first := Quoted(tokens[0]);
    assert forall i | 0 <= i < |first| :: QuotedChar(first[i]);
    if |tokens| > 1 {
      QuotedChars(tokens[1..]);
      var rest := QuotedAll(tokens[1..]);
      assert QuotedAll(tokens) == first + " " + rest;
    }
  }

  /** A command line of plain words in quotes is classified by its words. */
  lemma WordsClassified(tokens: seq<string>, profile: Profile, policy: Policy)
    requires Words(tokens) && tokens != [] && !IsAlias(QuotedAll(tokens), profile, policy)
    ensures Classify(QuotedAll(tokens), profile, policy).allowed <==> ClassifyTokens(tokens, policy).allowed
  {
    QuotedIsQuiet(tokens);
    QuotedTokens(tokens);
    hide *;
    SingleClassified(QuotedAll(tokens), tokens, profile, policy);
  }

  lemma QuotedTokens(tokens: seq<string>)
    requires Words(tokens)
    ensures Tokens(QuotedAll(tokens)) == tokens
  {
    assert forall i | 0 <= i < |tokens| :: '\'' !in tokens[i];
    TokenizeInvertsQuoting(tokens);
  }

  ghost predicate Quiet(q: string) {
    q != [] && Trim(q) == q && Trimmed(q) && Presentable(q) && Unchained(q)
  }

  lemma QuotedIsQuiet(tokens: seq<string>)
    requires Words(tokens) && tokens != []
    ensures Quiet(QuotedAll(tokens))
  {
    QuotedChars(tokens);
    hide QuotedAll;
    QuotedCharsAreQuiet(QuotedAll(tokens));
  }

  lemma QuotedCharsAreQuiet(q: string)
    requires |q| >= 2 && q[0] == '\'' && q[|q| - 1] == '\'' && forall i | 0 <= i < |q| :: QuotedChar(q[i])
    ensures Quiet(q)
  {
    assert Trimmed(q);
    TrimIsTrimmed(q);
    HarmlessIsNotDangerous(q);
    NotAWrapper(q);
    NoOperators(q);
    hide Trim, Trimmed, Dangerous, ShellWrapper, Unchained, QuotedChar;
  }

  /** A quiet command without an alias is classified by its tokens. */
  lemma SingleClassified(q: string, tokens: seq<string>, profile: Profile, policy: Policy)
    requires Quiet(q) && Tokens(q) == tokens && !IsAlias(q, profile, policy)
    ensures Classify(q, profile, policy).allowed <==> ClassifyTokens(tokens, policy).allowed
  {
    hide Dangerous, ShellWrapper, Tokens, Unchained, ClassifyTokens, Trim;
    UnchainedIsFixed(q);
    AcceptedExactlyBySegments(q, profile, policy);
    ChainAllowedExactly([q], policy);
    assert [q][0] == q;
  }

  lemma NoOperators(q: string)
    requires forall i | 0 <= i < |q| :: QuotedChar(q[i])
    ensures Unchained(q)
  {
    hide QuoteAt;
  }

  lemma NotAWrapper(s: string)
    requires s != [] && s[0] !in ['s', 'b', 'z', 'd', 'k']
    ensures !ShellWrapper(s)
  {
    WrapperFirstLetter(s, "sh");
    WrapperFirstLetter(s, "bash");
    WrapperFirstLetter(s, "zsh");
    WrapperFirstLetter(s, "dash");
    WrapperFirstLetter(s, "ksh");
  }

  /** However it is spelled, a branch deletion is refused exactly when one flag is a bare `-d` or `-D` and
      `--show-current` is absent: stated for the command line that a caller submits, over all words. */
  lemma BranchDeletionRefusedExactly(args: seq<string>, profile: Profile, policy: Policy)
    requires Words(args) && Deletes(args) && !IsAlias(QuotedAll(["git", "branch"] + args), profile, policy)
    ensures !Classify(QuotedAll(["git", "branch"] + args), profile, policy).allowed <==>
              BareDeletion(args) && "--show-current" !in args
  {
    BranchWords(args);
    BranchTokens(args, policy);
    hide *;
    WordsClassified(["git", "branch"] + args, profile, policy);
  }

  lemma BranchTokens(args: seq<string>, policy: Policy)
    ensures ClassifyTokens(["git", "branch"] + args, policy).allowed <==> "--show-current" in args || !BareDeletion(args)
  {
    assert (["git", "branch"] + args)[2..] == args;
  }

  lemma BranchWords(args: seq<string>)
    requires Words(args)
    ensures Words(["git", "branch"] + args)
  {
    var tokens := ["git", "branch"] + args;
    assert forall i | 2 <= i < |tokens| :: tokens[i] == args[i - 2];
    assert forall j | 0 <= j < |"git"| :: WordChar("git"[j]);
    assert forall j | 0 <= j < |"branch"| :: WordChar("branch"[j]);
  }

  /** The long flag and the bundled flag do delete and are accepted. */
  lemma SpelledOutDeletionPasses(policy: Policy)
    ensures Deletes(["--delete", "main"]) && ClassifyTokens(["git", "branch", "--delete", "main"], policy).allowed
    ensures Deletes(["-rd", "main"]) && ClassifyTokens(["git", "branch", "-rd", "main"], policy).allowed
  {
    assert ["git", "branch", "--delete", "main"][2..] == ["--delete", "main"];
    assert ["git", "branch", "-rd", "main"][2..] == ["-rd", "main"];
    assert DeletionFlag(["--delete", "main"][0]);
    assert "-rd"[2] == 'd' && "-rd"[1..][1] == 'd';
    assert DeletionFlag(["-rd", "main"][0]);
  }

  // ---- Commands without a segment ----

  predicate SeparatorChar(c: char) {
    IsSpace(c) || c == ';' || c == '|' || c == '&'
  }

  /** Separators are spaces, `;`, `|` and ampersands that come in pairs. */
  lemma {:induction false} SeparatorShape(t: string, i: nat)
    requires i <= |t| && OnlySeparators(t, i)
    ensures forall k | i <= k < |t| :: PairedAt(t, i, k)
    decreases |t| - i
  {
    if i < |t| {
      var n := i + SeparatorLength(t, i);
      SeparatorHere(t, i);
      SeparatorShape(t, n);
      hide OnlySeparators, SeparatorLength;
      forall k | i <= k < |t| ensures PairedAt(t, i, k) {
        assert k >= n ==> PairedAt(t, n, k);
      }
    }
  }

  function SeparatorLength(t: string, i: nat): nat
    requires i < |t|
  {
    if OperatorAt(t, i) then OperatorLength(t, i) else 1
  }

  /** The character at `k` is a separator, and an ampersand has another beside it from `i` on. */
  predicate PairedAt(t: string, i: nat, k: nat)
    requires i <= k < |t|
  {
    SeparatorChar(t[k]) && (t[k] == '&' ==> (k + 1 < |t| && t[k + 1] == '&') || (k > i && t[k - 1] == '&'))
  }

  lemma SeparatorHere(t: string, i: nat)
    requires i < |t| && OnlySeparators(t, i)
    ensures var n := i + SeparatorLength(t, i);
            && i < n <= i + 2 && n <= |t| && OnlySeparators(t, n)
            && (forall k | i <= k < n :: SeparatorChar(t[k]))
            && (t[i] == '&' ==> n == i + 2 && t[i + 1] == '&')
            && (n == i + 2 && t[i + 1] == '&' ==> t[i] == '&')
  {
  }

  lemma SeparatorsDangerousExactly(t: string)
    requires OnlySeparators(t, 0)
    ensures Dangerous(t) <==> '\n' in t
  {
    SeparatorShape(t, 0);
    hide OnlySeparators;
    forall k | 0 <= k < |t| ensures !LoneAmpersandAt(t, k) && t[k] != '(' && t[k] != '`' && t[k] != '<' && t[k] != '>' {
      assert PairedAt(t, 0, k);
    }
    QuietExactly(t);
  }

  /** Without the characters of the other dangerous shapes only lone ampersands and line breaks are left. */
  lemma QuietExactly(t: string)
    requires forall k | 0 <= k < |t| :: t[k] != '(' && t[k] != '`' && t[k] != '<' && t[k] != '>'
    ensures Dangerous(t) <==> HasLoneAmpersand(t) || '\n' in t
  {
    hide HasLoneAmpersand, QuoteAt;
    NoPair(t, "$(");
    NoPair(t, "<(");
    NoPair(t, ">(");
  }

  /** A command made of separators, blanks included, has no segment to refuse: it is accepted exactly when
      no line break is left inside it. */
  lemma SeparatorOnlyCommandsExactly(command: string, profile: Profile, policy: Policy)
    requires OnlySeparators(Trim(command), 0)
    ensures Classify(command, profile, policy).allowed <==> '\n' !in Trim(command)
  {
    var t := Trim(command);
    SeparatorsDangerousExactly(t);
    SeparatorShape(t, 0);
    if t == [] {
      assert !ShellWrapper(t);
    } else {
      assert PairedAt(t, 0, 0);
      NotAWrapper(t);
    }
    NoSegmentAccepted(command, profile, policy);
  }

  lemma NoSegmentAccepted(command: string, profile: Profile, policy: Policy)
    requires OnlySeparators(Trim(command), 0)
    ensures Classify(command, profile, policy).allowed <==> Presentable(Trim(command))
  {
    AcceptedHasSegmentExactly(command);
    hide Trim, Dangerous, ShellWrapper, OnlySeparators, SplitChains;
  }

  /** Exactly when an accepted command has at least one segment that was classified. */
  lemma AcceptedHasSegmentExactly(command: string)
    ensures SplitChains(Trim(command)) != [] <==> !OnlySeparators(Trim(command), 0)
  {
    TrimTwice(command);
    NoSegmentsExactly(Trim(command));
  }

  function Hidden(): string { ['a', ' ', '\\', '"', ';'] }

  lemma HiddenTokens()
    ensures Tokens(Hidden()) == ["a", "\";"]
    ensures ScanAt(Hidden(), 4) == Scan(Plain, false) && QuoteAt(Hidden(), 4) == Double
  {
    var p := Scan(Plain, false);
    var s := Hidden();
    assert s[1..] == [' ', '\\', '"', ';'];
    assert s[1..][1..] == ['\\', '"', ';'];
    assert ['\\', '"', ';'][1..] == ['"', ';'];
    assert ['"', ';'][1..] == [';'];
    assert [';'][1..] == [];
    assert "" + ['"'] == "\"" && "\"" + [';'] == "\";" && "" + ['a'] == "a";
    assert TokensFrom([], "\";", p) == ["\";"];
    assert TokensFrom([';'], "\"", p) == ["\";"];
    assert TokensFrom(['"', ';'], "", Scan(Plain, true)) == ["\";"];
    assert TokensFrom(['\\', '"', ';'], "", p) == ["\";"];
    assert TokensFrom([' ', '\\', '"', ';'], "a", p) == ["a"] + ["\";"];
    assert ScanAt(s, 1) == p && ScanAt(s, 2) == p && ScanAt(s, 3) == Scan(Plain, true);
    assert QuoteAt(s, 1) == Plain && QuoteAt(s, 2) == Plain && QuoteAt(s, 3) == Plain;
  }

  /** With an escaped quote the agreement fails: the splitter takes the semicolon for quoted, the
      tokenizer does not, and the command is accepted in one piece. */
  lemma EscapedQuoteHidesOperator(policy: Policy)
    requires policy.allowedCommands == ["a"]
    ensures HasEscapedQuote(Hidden()) && SplitChains(Hidden()) == [Hidden()]
    ensures Classify(Hidden(), ORCHESTRATOR, policy).allowed
    ensures Hidden()[4] == ';' && ScanAt(Hidden(), 4).quote == Plain
  {
    HiddenTokens();
    HiddenQuote();
    HiddenIsHarmless();
    HiddenIsTrimmed();
    HiddenMatches(policy);
    assert Hidden()[4] == ';';
    hide *;
    AcceptedWhole(Hidden(), ORCHESTRATOR, policy);
  }

  lemma HiddenIsTrimmed()
    ensures Hidden() != [] && Trimmed(Hidden()) && Trim(Hidden()) == Hidden()
  {
    TrimIsTrimmed(Hidden());
  }

  lemma HiddenQuote()
    ensures HasEscapedQuote(Hidden())
  {
    assert ScanAt(Hidden(), 1) == ScanAt(Hidden(), 2) == Scan(Plain, false);
    assert ScanAt(Hidden(), 3) == Scan(Plain, true);
    assert EscapedQuoteAt(Hidden(), 3);
  }

  /** A single unchained command is accepted when its tokens are. */
  lemma AcceptedWhole(u: string, profile: Profile, policy: Policy)
    requires u != [] && Trim(u) == u && Trimmed(u) && Unchained(u) && !Dangerous(u) && !ShellWrapper(u)
    requires ClassifyTokens(Tokens(u), policy).allowed
    ensures Classify(u, profile, policy).allowed && SplitChains(u) == [u]
  {
    UnchainedIsFixed(u);
    ChainAllowedExactly([u], policy);
  }

  lemma HiddenMatches(policy: Policy)
    requires policy.allowedCommands == ["a"]
    ensures ClassifyTokens(["a", "\";"], policy).allowed
  {
  }

  predicate Harmless(c: char) {
    c != '>' && c != '<' && c != '`' && c != '&' && c != '$' && c != '\n' && c != '('
  }

  lemma NoPair(s: string, p: string)
    requires |p| == 2 && p[1] == '(' && forall i | 0 <= i < |s| :: s[i] != '('
    ensures !Contains(s, p)
  {
  }

  lemma HarmlessIsNotDangerous(s: string)
    requires forall i | 0 <= i < |s| :: Harmless(s[i])
    ensures !Dangerous(s)
  {
    NoPair(s, "$(");
    NoPair(s, "<(");
    NoPair(s, ">(");
  }

  lemma WrapperFirstLetter(s: string, name: string)
    requires s != [] && name != [] && s[0] != name[0]
    ensures !WrapperNamed(s, name)
  {
  }

  lemma HiddenIsHarmless()
    ensures Unchained(Hidden()) && !Dangerous(Hidden()) && !ShellWrapper(Hidden())
  {
    HiddenTokens();
    HarmlessIsNotDangerous(Hidden());
    NotAWrapper(Hidden());
    forall i | 0 <= i < |Hidden()| ensures QuoteAt(Hidden(), i) == Plain ==> !OperatorAt(Hidden(), i) {
      if i < 4 {
        assert Hidden()[i] == 'a' || Hidden()[i] == ' ' || Hidden()[i] == '\\' || Hidden()[i] == '"';
      }
    }
  }
}
