/** The engineering workflow: its transition function, human-ordered corrections, and whole runs. */
module Workflow {
  import opened Strings
  import opened Sets
  import opened Governance
  import ShellScanners

  // ---- Data ----

  datatype StepType =
    PLAN | BUILD | TEST | PACKAGE | RED_TEAM | PARSE_VERDICT | CORRECTION | VERIFY | HUMAN_RELEASE_GATE | RELEASE_EXECUTION | REMOTE_VERIFY

  datatype Verdict = A | B | C | D

  datatype Review = Review(verdict: Verdict, executionId: string)

  datatype Independence = Independence(
    reviewerProviderIds: seq<string>, reviewerFamilies: seq<string>, builderFamily: Option<string>)

  datatype Unsatisfied =
    | REVIEW_EVIDENCE_INSUFFICIENT | REVIEWER_EXECUTION_NOT_DISTINCT | MIN_REVIEWER_COUNT_UNSATISFIED
    | REVIEWER_PROVIDER_NOT_DISTINCT | MODEL_FAMILY_REQUIREMENT_UNSATISFIED | BUILDER_MODEL_FAMILY_UNKNOWN
    | REVIEWER_INDEPENDENCE_UNSATISFIED

  datatype BlockReason =
    | LOOP_EXHAUSTED(count: int)
    | REVIEW_DISAGREEMENT(verdicts: seq<Verdict>)
    | HUMAN_DECISION_REQUIRED(verdict: Verdict)
    | ASSURANCE_UNSATISFIED(reason: Unsatisfied)
    | HUMAN_APPROVAL_MISSING
    | PROVIDER_BLOCKED(status: AgentStatus)

  datatype Outcome = NextStep(step: StepType) | Blocked(reason: BlockReason) | Completed | Failed

  /** What a finished step reports. */
  datatype Report = Report(
    succeeded: bool, verdict: Option<Verdict>, reviews: Option<seq<Review>>, providerStatus: Option<AgentStatus>,
    humanApproved: Option<bool>, independence: Option<Independence>)

  // ---- Verdicts and assurance ----

  function Verdicts(reviews: seq<Review>): seq<Verdict> {
    seq(|reviews|, i requires 0 <= i < |reviews| => reviews[i].verdict)
  }

  function ExecutionIds(reviews: seq<Review>): seq<string> {
    seq(|reviews|, i requires 0 <= i < |reviews| => reviews[i].executionId)
  }

  predicate AllSame(verdicts: seq<Verdict>) {
    forall i | 0 <= i < |verdicts| :: verdicts[i] == verdicts[0]
  }

  datatype Resolution = Resolved(verdict: Verdict) | Unresolved(reason: BlockReason)

  function ResolveVerdict(r: Report): Resolution {
    if r.reviews.Some? && r.reviews.value != [] then
      var verdicts := Verdicts(r.reviews.value);
      if AllSame(verdicts) then Resolved(verdicts[0]) else Unresolved(REVIEW_DISAGREEMENT(verdicts))
    else if r.verdict.Some? then Resolved(r.verdict.value)
    else Unresolved(REVIEW_DISAGREEMENT([]))
  }

  /** `new Set(xs).size` */
  function DistinctCount(xs: seq<string>): nat {
    |set x | x in xs|
  }

  predicate FamilyUnknown(family: Option<string>) {
    family.None? || family.value == "" || ShellScanners.Trim(family.value) == ""
  }

  /** The shared part of both assurance checks: the families of builder and first two reviewers. */
  function CheckFamilies(ctx: Independence): Option<Unsatisfied> {
    if |ctx.reviewerFamilies| < 2 then Some(MODEL_FAMILY_REQUIREMENT_UNSATISFIED)
    else if FamilyUnknown(ctx.builderFamily) then Some(BUILDER_MODEL_FAMILY_UNKNOWN)
    else if Some(ctx.reviewerFamilies[0]) == ctx.builderFamily then Some(REVIEWER_INDEPENDENCE_UNSATISFIED)
    else if ctx.reviewerFamilies[0] != "" && ctx.reviewerFamilies[1] != "" && ctx.reviewerFamilies[0] == ctx.reviewerFamilies[1]
    then Some(MODEL_FAMILY_REQUIREMENT_UNSATISFIED)
    else None
  }

  function EnforceAl4(r: Report): Option<Unsatisfied> {
    if r.reviews.None? || |r.reviews.value| < 2 then Some(REVIEW_EVIDENCE_INSUFFICIENT)
    else if DistinctCount(ExecutionIds(r.reviews.value)) < |r.reviews.value| then Some(REVIEWER_EXECUTION_NOT_DISTINCT)
    else if r.independence.None? then Some(MIN_REVIEWER_COUNT_UNSATISFIED)
    else if DistinctCount(r.independence.value.reviewerProviderIds) < 2 then Some(REVIEWER_PROVIDER_NOT_DISTINCT)
    else CheckFamilies(r.independence.value)
  }

  function CheckAl4(ctx: Independence, reviewerCount: int): Option<Unsatisfied> {
    if reviewerCount < 2 then Some(MIN_REVIEWER_COUNT_UNSATISFIED) else CheckFamilies(ctx)
  }

  // ---- The transition function ----

  function CorrectOrBlock(loops: int, maxLoops: int): Outcome {
    if loops >= maxLoops then Blocked(LOOP_EXHAUSTED(loops)) else NextStep(CORRECTION)
  }

  function AfterVerdict(r: Report, loops: int, maxLoops: int, al4: bool): Outcome {
    if !r.succeeded then Failed
    else
      match ResolveVerdict(r)
      case Unresolved(reason) => Blocked(reason)
      case Resolved(verdict) =>
        if al4 && EnforceAl4(r).Some? then Blocked(ASSURANCE_UNSATISFIED(EnforceAl4(r).value))
        else match verdict
             case A => NextStep(VERIFY)
             case B => NextStep(VERIFY)
             case C => CorrectOrBlock(loops, maxLoops)
             case D => Blocked(HUMAN_DECISION_REQUIRED(D))
  }

  function Next(step: StepType, r: Report, loops: int, maxLoops: int, al4: bool): Outcome {
    if r.providerStatus == Some(QUOTA_BLOCKED) || r.providerStatus == Some(POLICY_BLOCKED) then
      Blocked(PROVIDER_BLOCKED(r.providerStatus.value))
    else
      match step
      case PLAN => if r.succeeded then NextStep(BUILD) else Failed
      case BUILD => if r.succeeded then NextStep(TEST) else Failed
      case TEST => if r.succeeded then NextStep(PACKAGE) else CorrectOrBlock(loops, maxLoops)
      case PACKAGE => if r.succeeded then NextStep(RED_TEAM) else Failed
      case RED_TEAM => if r.succeeded then NextStep(PARSE_VERDICT) else Failed
      case PARSE_VERDICT => AfterVerdict(r, loops, maxLoops, al4)
      case CORRECTION => if r.succeeded then NextStep(TEST) else Failed
      case VERIFY => if r.succeeded then NextStep(HUMAN_RELEASE_GATE) else Failed
      case HUMAN_RELEASE_GATE => if r.humanApproved == Some(true) then NextStep(RELEASE_EXECUTION) else Blocked(HUMAN_APPROVAL_MISSING)
      case RELEASE_EXECUTION => if r.succeeded then NextStep(REMOTE_VERIFY) else Failed
      case REMOTE_VERIFY => if r.succeeded then Completed else Failed
  }

  /** A human may order a correction only where a verdict D stopped the run. */
  function AfterHumanDecision(reason: BlockReason, loops: int, maxLoops: int): Outcome {
    if reason != HUMAN_DECISION_REQUIRED(D) then Blocked(reason) else CorrectOrBlock(loops, maxLoops)
  }

  // ---- Runs ----

  /** A step that was entered, with the report whose outcome entered it (none for the first step and
      for a correction ordered by a human). */
  datatype Entry = Entry(step: StepType, cause: Option<Report>)

  /** A run that is done keeps the report that completed it. */
  datatype Mode = Running | Waiting(reason: BlockReason) | Done(report: Option<Report>) | Stopped

  datatype WorkflowRun = WorkflowRun(maxLoops: int, al4: bool, loops: int, history: seq<Entry>, mode: Mode)

  function Start(maxLoops: int, al4: bool): WorkflowRun {
    WorkflowRun(maxLoops, al4, 0, [Entry(PLAN, None)], Running)
  }

  datatype Event = Reports(report: Report) | OrdersCorrection

  function Enter(w: WorkflowRun, outcome: Outcome, cause: Option<Report>): WorkflowRun {
    match outcome
    case NextStep(step) =>
      w.(history := w.history + [Entry(step, cause)], loops := if step.CORRECTION? then w.loops + 1 else w.loops, mode := Running)
    case Blocked(reason) => w.(mode := Waiting(reason))
    case Completed => w.(mode := Done(cause))
    case Failed => w.(mode := Stopped)
  }

  function Step(w: WorkflowRun, e: Event): WorkflowRun {
    if w.history == [] || w.mode.Done? || w.mode.Stopped? then w
    else
      match e
      case Reports(report) => Enter(w, Next(w.history[|w.history| - 1].step, report, w.loops, w.maxLoops, w.al4), Some(report))
      case OrdersCorrection =>
        if w.mode.Waiting? && w.history[|w.history| - 1].step.PARSE_VERDICT? then
          Enter(w, AfterHumanDecision(w.mode.reason, w.loops, w.maxLoops), None)
        else w
  }

  function Run(w: WorkflowRun, events: seq<Event>): WorkflowRun
    decreases |events|
  {
    if events == [] then w else Run(Step(w, events[0]), events[1..])
  }

  // ---- The invariant ----

  /** Steps still ahead when nothing has to be corrected. */
  function Rank(step: StepType): nat {
    match step
    case PLAN => 9
    case BUILD => 8
    case CORRECTION => 8
    case TEST => 7
    case PACKAGE => 6
    case RED_TEAM => 5
    case PARSE_VERDICT => 4
    case VERIFY => 3
    case HUMAN_RELEASE_GATE => 2
    case RELEASE_EXECUTION => 1
    case REMOTE_VERIFY => 0
  }

  function Positive(x: int): nat { if x < 0 then 0 else x }

  function Corrections(h: seq<Entry>): nat {
    if h == [] then 0 else Corrections(h[..|h| - 1]) + if h[|h| - 1].step.CORRECTION? then 1 else 0
  }

  /** The verdict that every review agrees on, or the sole verdict when there are no reviews, is `v`. */
  ghost predicate Decides(r: Report, v: Verdict) {
    if r.reviews.Some? && r.reviews.value != [] then forall x | x in r.reviews.value :: x.verdict == v
    else r.verdict == Some(v)
  }

  /** `a` and `b` are different reviews of the same report, by different executions. */
  ghost predicate DistinctExecutions(reviews: seq<Review>) {
    forall i, j | 0 <= i < |reviews| && 0 <= j < |reviews| && i != j :: reviews[i].executionId != reviews[j].executionId
  }

  ghost predicate TwoProviders(ctx: Independence) {
    exists p, q | p in ctx.reviewerProviderIds && q in ctx.reviewerProviderIds :: p != q
  }

  /** The evidence that an AL4 run must have to pass its review. */
  ghost predicate Al4Evidence(r: Report) {
    && r.reviews.Some? && |r.reviews.value| >= 2 && DistinctExecutions(r.reviews.value)
    && r.independence.Some? && TwoProviders(r.independence.value)
    && var ctx := r.independence.value;
       && |ctx.reviewerFamilies| >= 2
       && !FamilyUnknown(ctx.builderFamily)
       && ctx.reviewerFamilies[0] != ctx.builderFamily.value
       && (ctx.reviewerFamilies[0] != ctx.reviewerFamilies[1] || ctx.reviewerFamilies[0] == "")
  }

  predicate ProviderBlocks(r: Report) {
    r.providerStatus == Some(QUOTA_BLOCKED) || r.providerStatus == Some(POLICY_BLOCKED)
  }

  /** The report of a step that succeeded, by a provider that was not blocked. */
  predicate Passed(cause: Option<Report>) {
    cause.Some? && !ProviderBlocks(cause.value) && cause.value.succeeded
  }

  /** A verdict that every reviewer gave, in an AL4 run on full evidence. */
  ghost predicate Ruled(cause: Option<Report>, v: Verdict, al4: bool) {
    Passed(cause) && Decides(cause.value, v) && (al4 ==> Al4Evidence(cause.value))
  }

  /** What must hold for `to` to be entered from `from`. */
  ghost predicate Edge(from: StepType, to: Entry, al4: bool) {
    match to.step
    case PLAN => false
    case BUILD => from.PLAN? && Passed(to.cause)
    case TEST => (from.BUILD? || from.CORRECTION?) && Passed(to.cause)
    case PACKAGE => from.TEST? && Passed(to.cause)
    case RED_TEAM => from.PACKAGE? && Passed(to.cause)
    case PARSE_VERDICT => from.RED_TEAM? && Passed(to.cause)
    case CORRECTION =>
      || (from.TEST? && to.cause.Some? && !ProviderBlocks(to.cause.value) && !to.cause.value.succeeded)
      || (from.PARSE_VERDICT? && (to.cause.None? || Ruled(to.cause, C, al4)))
    case VERIFY => from.PARSE_VERDICT? && (Ruled(to.cause, A, al4) || Ruled(to.cause, B, al4))
    case HUMAN_RELEASE_GATE => from.VERIFY? && Passed(to.cause)
    case RELEASE_EXECUTION =>
      from.HUMAN_RELEASE_GATE? && to.cause.Some? && !ProviderBlocks(to.cause.value) && to.cause.value.humanApproved == Some(true)
    case REMOTE_VERIFY => from.RELEASE_EXECUTION? && Passed(to.cause)
  }

  ghost predicate Chain(h: seq<Entry>, al4: bool) {
    && h != [] && h[0].step.PLAN?
    && forall i | 0 < i < |h| :: Edge(h[i - 1].step, h[i], al4)
  }

  ghost predicate Inv(w: WorkflowRun) {
    && Chain(w.history, w.al4)
    && w.loops == Corrections(w.history) && w.loops <= Positive(w.maxLoops)
    && |w.history| + Rank(w.history[|w.history| - 1].step) <= 10 + 5 * w.loops
    && (w.mode.Done? ==> w.history[|w.history| - 1].step.REMOTE_VERIFY? && Passed(w.mode.report))
  }

  // ---- Sets of strings ----

  lemma DistinctStep(init: seq<string>, x: string)
    ensures DistinctCount(init + [x]) == DistinctCount(init) + if x in init then 0 else 1
  {
    var all, rest := set y | y in init + [x], set y | y in init;
    assert all == rest + {x};
    if x in init {
      assert all == rest;
    }
  }

  ghost predicate Distinct(xs: seq<string>) {
    forall i, j | 0 <= i < |xs| && 0 <= j < |xs| && i != j :: xs[i] != xs[j]
  }

  lemma DistinctGrows(init: seq<string>, x: string)
    ensures Distinct(init + [x]) <==> Distinct(init) && x !in init
  {
    var xs := init + [x];
    if Distinct(xs) {
      forall i, j | 0 <= i < |init| && 0 <= j < |init| && i != j ensures init[i] != init[j] {
        assert xs[i] != xs[j];
      }
      forall i | 0 <= i < |init| ensures init[i] != x {
        assert xs[i] != xs[|init|];
      }
    }
  }

  /** A sequence has as many distinct elements as entries exactly when no two entries are equal. */
  lemma {:induction false} DistinctExactly(xs: seq<string>)
    ensures DistinctCount(xs) <= |xs|
    ensures DistinctCount(xs) == |xs| <==> Distinct(xs)
  {
    if xs != [] {
      var n := |xs| - 1;
      DistinctExactly(xs[..n]);
      DistinctStep(xs[..n], xs[n]);
      DistinctGrows(xs[..n], xs[n]);
      hide DistinctCount, Distinct;
      assert xs == xs[..n] + [xs[n]];
    }
  }

  lemma TwoDistinctExactly(xs: seq<string>)
    ensures DistinctCount(xs) >= 2 <==> exists p, q | p in xs && q in xs :: p != q
  {
    var all := set x | x in xs;
    if exists p, q | p in xs && q in xs :: p != q {
      var p, q :| p in xs && q in xs && p != q;
      assert {p, q} <= all;
      SubsetSize({p, q}, all);
    } else if all != {} {
      var p :| p in all;
      assert all == {p};
    }
  }

  // ---- Assurance ----

  /** The enforced AL4 requirements are exactly the evidence, and exactly the stand-alone independence
      check together with distinct executions and two providers. */
  lemma Al4Exactly(r: Report)
    ensures EnforceAl4(r).None? <==> Al4Evidence(r)
    ensures EnforceAl4(r).None? <==>
              && r.reviews.Some? && r.independence.Some? && CheckAl4(r.independence.value, |r.reviews.value|).None?
              && DistinctExecutions(r.reviews.value) && TwoProviders(r.independence.value)
  {
    if r.reviews.Some? {
      DistinctExactly(ExecutionIds(r.reviews.value));
      IdsDistinct(r.reviews.value);
    }
    if r.independence.Some? {
      TwoDistinctExactly(r.independence.value.reviewerProviderIds);
    }
  }

  lemma IdsDistinct(reviews: seq<Review>)
    ensures DistinctExecutions(reviews) <==> Distinct(ExecutionIds(reviews))
  {
    assert forall i | 0 <= i < |reviews| :: ExecutionIds(reviews)[i] == reviews[i].executionId;
  }

  /** The promise that the first two reviewers come from different model families holds of everything
      the check lets through, except exactly when both families are the empty string. */
  lemma FamiliesDifferExactly(ctx: Independence, reviewerCount: int)
    requires CheckAl4(ctx, reviewerCount).None?
    ensures ctx.reviewerFamilies[0] != ctx.reviewerFamilies[1] <==> !(ctx.reviewerFamilies[0] == "" && ctx.reviewerFamilies[1] == "")
  {
  }

  lemma EmptyFamiliesPass()
    ensures CheckAl4(Independence([], ["", ""], Some("x")), 2).None?
  {
  }

  /** No reviewer's model family is the builder's. */
  ghost predicate ReviewersApart(ctx: Independence) {
    forall family | family in ctx.reviewerFamilies :: Some(family) != ctx.builderFamily
  }

  /** Of everything the check lets through, all reviewers are apart from the builder exactly when the
      builder's family is not among the reviewers after the first, whom the check does not compare. */
  lemma ReviewersApartExactly(ctx: Independence, reviewerCount: int)
    requires CheckAl4(ctx, reviewerCount).None?
    ensures ReviewersApart(ctx) <==> ctx.builderFamily.value !in ctx.reviewerFamilies[1..]
  {
    var f := ctx.reviewerFamilies;
    assert f == [f[0]] + f[1..];
  }

  /** Two reviews by distinct executions and providers, the second from the builder's own family. */
  const SHARED := Report(true, None, Some([Review(A, "1"), Review(A, "2")]), None, None,
                         Some(Independence(["p", "q"], ["x", "b"], Some("b"))))

  /** The enforced requirements accept a second reviewer of the builder's family. */
  lemma SharedFamilyPasses()
    ensures EnforceAl4(SHARED).None? && CheckAl4(SHARED.independence.value, 2).None?
    ensures Decides(SHARED, A) && !ReviewersApart(SHARED.independence.value)
  {
    var r := SHARED.reviews.value;
    assert r[0].executionId == "1" && r[1].executionId == "2";
    assert DistinctExecutions(r);
    var ctx := SHARED.independence.value;
    assert ctx.reviewerProviderIds[0] == "p" && ctx.reviewerProviderIds[1] == "q";
    assert "p" in ctx.reviewerProviderIds && "q" in ctx.reviewerProviderIds && "p" != "q";
    assert TwoProviders(ctx);
    assert ShellScanners.Trim("b") == "b";
    Al4Exactly(SHARED);
    assert ctx.reviewerFamilies[1] == "b" && "b" in ctx.reviewerFamilies;
  }

  lemma ResolvedDecides(r: Report)
    ensures ResolveVerdict(r).Resolved? ==> Decides(r, ResolveVerdict(r).verdict)
    ensures forall v | Decides(r, v) :: ResolveVerdict(r) == Resolved(v)
  {
    if r.reviews.Some? && r.reviews.value != [] {
      var s := r.reviews.value;
      assert forall i | 0 <= i < |s| :: Verdicts(s)[i] == s[i].verdict;
      assert s[0] in s;
      forall v | Decides(r, v) ensures ResolveVerdict(r) == Resolved(v) {
        assert forall i | 0 <= i < |s| :: s[i] in s;
      }
    }
  }

  // ---- Every step keeps the invariant ----

  lemma NextIsEdge(from: StepType, r: Report, loops: int, maxLoops: int, al4: bool)
    ensures var o := Next(from, r, loops, maxLoops, al4);
            && (o.NextStep? ==> Edge(from, Entry(o.step, Some(r)), al4) && (o.step.CORRECTION? ==> loops < maxLoops))
            && (o.Completed? ==> from.REMOTE_VERIFY? && Passed(Some(r)))
  {
    hide EnforceAl4, Al4Evidence, Decides, ResolveVerdict;
    ResolvedDecides(r);
    Al4Exactly(r);
  }

  lemma EdgeRank(from: StepType, to: Entry, al4: bool)
    requires Edge(from, to, al4)
    ensures 1 + Rank(to.step) <= Rank(from) + if to.step.CORRECTION? then 5 else 0
  {
  }

  lemma EnterKeeps(w: WorkflowRun, outcome: Outcome, cause: Option<Report>)
    requires Inv(w)
    requires outcome.NextStep? ==> Edge(w.history[|w.history| - 1].step, Entry(outcome.step, cause), w.al4)
    requires outcome.NextStep? && outcome.step.CORRECTION? ==> w.loops < w.maxLoops
    requires outcome.Completed? ==> w.history[|w.history| - 1].step.REMOTE_VERIFY? && Passed(cause)
    ensures Inv(Enter(w, outcome, cause))
  {
    hide Edge, Rank;
    if outcome.NextStep? {
      EdgeRank(w.history[|w.history| - 1].step, Entry(outcome.step, cause), w.al4);
      ChainGrows(w.history, Entry(outcome.step, cause), w.al4);
    }
  }

  lemma ChainGrows(h: seq<Entry>, e: Entry, al4: bool)
    requires Chain(h, al4) && Edge(h[|h| - 1].step, e, al4)
    ensures Chain(h + [e], al4) && Corrections(h + [e]) == Corrections(h) + if e.step.CORRECTION? then 1 else 0
  {
    hide Edge;
    var z := h + [e];
    assert z[..|z| - 1] == h;
    forall i | 0 < i < |z| ensures Edge(z[i - 1].step, z[i], al4) {
      if i < |h| {
        assert Edge(h[i - 1].step, h[i], al4);
      }
    }
  }

  lemma StepKeeps(w: WorkflowRun, e: Event)
    requires Inv(w)
    ensures Inv(Step(w, e))
  {
    hide Inv;
    if Step(w, e) != w {
      assert w.history != [] by { HasHistory(w); }
      match e
      case Reports(report) =>
        NextIsEdge(w.history[|w.history| - 1].step, report, w.loops, w.maxLoops, w.al4);
        EnterKeeps(w, Next(w.history[|w.history| - 1].step, report, w.loops, w.maxLoops, w.al4), Some(report));
      case OrdersCorrection =>
        EnterKeeps(w, AfterHumanDecision(w.mode.reason, w.loops, w.maxLoops), None);
    }
  }

  lemma HasHistory(w: WorkflowRun)
    requires Inv(w)
    ensures w.history != []
  {
  }

  lemma {:induction false} RunKeeps(w: WorkflowRun, events: seq<Event>)
    requires Inv(w)
    ensures Inv(Run(w, events)) && Run(w, events).maxLoops == w.maxLoops && Run(w, events).al4 == w.al4
    decreases |events|
  {
    hide Inv;
    if events != [] {
      StepKeeps(w, events[0]);
      RunKeeps(Step(w, events[0]), events[1..]);
    }
  }

  lemma StartsWell(maxLoops: int, al4: bool)
    ensures Inv(Start(maxLoops, al4))
  {
  }

  // ---- Main results over every run ----

  /** However steps fail, reviewers disagree or humans order corrections, a run enters CORRECTION at
      most `maxLoops` times and never has more than 5 * maxLoops + 10 steps. */
  lemma RunsAreBounded(maxLoops: int, al4: bool, events: seq<Event>)
    ensures var w := Run(Start(maxLoops, al4), events);
            Corrections(w.history) <= Positive(maxLoops) && |w.history| <= 5 * Positive(maxLoops) + 10
  {
    StartsWell(maxLoops, al4);
    RunKeeps(Start(maxLoops, al4), events);
  }

  /** No step of any run was entered but by the success of the step before it, on a provider that was not
      blocked, with three exceptions: a correction after a failed test, a correction that a human ordered
      after a review, and a release that a human approved. */
  lemma EntriesEarned(maxLoops: int, al4: bool, events: seq<Event>, k: nat)
    requires 0 < k < |Run(Start(maxLoops, al4), events).history|
    ensures var h := Run(Start(maxLoops, al4), events).history;
            var r := h[k].cause;
            || (r.Some? && r.value.succeeded && !ProviderBlocks(r.value))
            || (h[k].step == CORRECTION && h[k - 1].step == TEST && r.Some? && !ProviderBlocks(r.value))
            || (h[k].step == CORRECTION && h[k - 1].step == PARSE_VERDICT && r.None?)
            || (h[k].step == RELEASE_EXECUTION && r.Some? && r.value.humanApproved == Some(true) && !ProviderBlocks(r.value))
  {
    hide Decides, Al4Evidence, Step;
    StartsWell(maxLoops, al4);
    RunKeeps(Start(maxLoops, al4), events);
    assert Linked(Run(Start(maxLoops, al4), events).history, k, al4);
  }

  /** Whenever a run has entered RELEASE_EXECUTION, the seven steps before it are a BUILD or CORRECTION and the
      full sequence of checks; each of them succeeded on a provider that was not blocked, the verdict is a
      unanimous or sole A or B, and a human approved. */
  lemma ReleaseHistory(maxLoops: int, al4: bool, events: seq<Event>, k: nat)
    requires var h := Run(Start(maxLoops, al4), events).history; k < |h| && h[k].step.RELEASE_EXECUTION?
    ensures var h := Run(Start(maxLoops, al4), events).history;
            && k >= 8
            && (h[k - 7].step.BUILD? || h[k - 7].step.CORRECTION?)
            && h[k - 6].step.TEST? && h[k - 5].step.PACKAGE? && h[k - 4].step.RED_TEAM? && h[k - 3].step.PARSE_VERDICT?
            && h[k - 2].step.VERIFY? && h[k - 1].step.HUMAN_RELEASE_GATE?
            && (forall i | k - 6 <= i < k ::
                  h[i].cause.Some? && h[i].cause.value.succeeded && !ProviderBlocks(h[i].cause.value))
            && (Decides(h[k - 2].cause.value, A) || Decides(h[k - 2].cause.value, B))
            && h[k].cause.Some? && h[k].cause.value.humanApproved == Some(true) && !ProviderBlocks(h[k].cause.value)
            && (al4 ==> Al4Evidence(h[k - 2].cause.value))
  {
    hide Decides, Al4Evidence;
    StartsWell(maxLoops, al4);
    RunKeeps(Start(maxLoops, al4), events);
    var w := Run(Start(maxLoops, al4), events);
    PathToRelease(w.history, k, al4);
  }

  ghost predicate Linked(h: seq<Entry>, i: int, al4: bool) {
    0 < i < |h| && Edge(h[i - 1].step, h[i], al4)
  }

  lemma PathToRelease(h: seq<Entry>, k: nat, al4: bool)
    requires Chain(h, al4)
    requires k < |h| && h[k].step.RELEASE_EXECUTION?
    ensures k >= 8
    ensures (h[k - 7].step.BUILD? || h[k - 7].step.CORRECTION?) && h[k - 6].step.TEST? && h[k - 5].step.PACKAGE?
    ensures h[k - 4].step.RED_TEAM? && h[k - 3].step.PARSE_VERDICT? && h[k - 2].step.VERIFY? && h[k - 1].step.HUMAN_RELEASE_GATE?
    ensures forall i | k - 6 <= i <= k :: Edge(h[i - 1].step, h[i], al4)
  {
    hide Decides, Al4Evidence;
    assert Linked(h, k, al4);
    assert Linked(h, k - 1, al4);
    assert Linked(h, k - 2, al4);
    assert Linked(h, k - 3, al4);
    assert Linked(h, k - 4, al4);
    assert Linked(h, k - 5, al4);
    assert Linked(h, k - 6, al4);
    assert Linked(h, k - 7, al4);
  }

  /** An AL4 run enters VERIFY only on evidence: two reviews or more by distinct executions with one
      common verdict of A or B, two providers, and a builder family other than the first reviewer's. */
  lemma Al4Verified(maxLoops: int, events: seq<Event>, k: nat)
    requires var h := Run(Start(maxLoops, true), events).history; k < |h| && h[k].step.VERIFY?
    ensures var e := Run(Start(maxLoops, true), events).history[k];
            && e.cause.Some? && Al4Evidence(e.cause.value)
            && ((forall x | x in e.cause.value.reviews.value :: x.verdict == A)
                || (forall x | x in e.cause.value.reviews.value :: x.verdict == B))
  {
    hide DistinctExecutions, TwoProviders, FamilyUnknown;
    StartsWell(maxLoops, true);
    RunKeeps(Start(maxLoops, true), events);
    var h := Run(Start(maxLoops, true), events).history;
    assert k > 0 && Edge(h[k - 1].step, h[k], true);
  }

  /** Over AL4 runs: the reviewers behind a VERIFY entry are all apart from the builder exactly when the
      builder's family is not among those after the first. */
  lemma VerifiedApartExactly(maxLoops: int, events: seq<Event>, k: nat)
    requires var h := Run(Start(maxLoops, true), events).history; k < |h| && h[k].step.VERIFY?
    ensures var e := Run(Start(maxLoops, true), events).history[k];
            && e.cause.Some? && e.cause.value.independence.Some?
            && var ctx := e.cause.value.independence.value;
               && |ctx.reviewerFamilies| >= 2 && ctx.builderFamily.Some?
               && (ReviewersApart(ctx) <==> ctx.builderFamily.value !in ctx.reviewerFamilies[1..])
  {
    hide Step;
    Al4Verified(maxLoops, events, k);
    var r := Run(Start(maxLoops, true), events).history[k].cause.value;
    Al4Exactly(r);
    ReviewersApartExactly(r.independence.value, |r.reviews.value|);
  }

  /** A completed run has released, the release succeeded, and so did its verification at the remote. */
  lemma CompletedHasReleased(maxLoops: int, al4: bool, events: seq<Event>)
    requires Run(Start(maxLoops, al4), events).mode.Done?
    ensures var w := Run(Start(maxLoops, al4), events);
            var h := w.history;
            && |h| >= 10 && h[|h| - 2].step == RELEASE_EXECUTION && h[|h| - 1].step == REMOTE_VERIFY
            && h[|h| - 1].cause.Some? && h[|h| - 1].cause.value.succeeded && !ProviderBlocks(h[|h| - 1].cause.value)
            && w.mode.report.Some? && w.mode.report.value.succeeded && !ProviderBlocks(w.mode.report.value)
            && Reports(w.mode.report.value) in events
  {
    hide Decides, Al4Evidence;
    StartsWell(maxLoops, al4);
    RunKeeps(Start(maxLoops, al4), events);
    var h := Run(Start(maxLoops, al4), events).history;
    assert |h| > 1 && Linked(h, |h| - 1, al4);
    PathToRelease(h, |h| - 2, al4);
    DoneByReport(Start(maxLoops, al4), events);
  }

  lemma StepDone(w: WorkflowRun, e: Event)
    requires Step(w, e).mode.Done? && !w.mode.Done?
    ensures e.Reports? && Step(w, e).mode.report == Some(e.report)
  {
  }

  lemma {:induction false} DoneByReport(w: WorkflowRun, events: seq<Event>)
    requires !w.mode.Done?
    ensures var z := Run(w, events); z.mode.Done? ==> z.mode.report.Some? && Reports(z.mode.report.value) in events
    decreases |events|
  {
    hide Step;
    if events != [] {
      var z := Step(w, events[0]);
      if z.mode.Done? {
        StepDone(w, events[0]);
        DoneStays(z, events[1..]);
      } else {
        DoneByReport(z, events[1..]);
      }
    }
  }

  lemma {:induction false} DoneStays(w: WorkflowRun, events: seq<Event>)
    requires w.mode.Done?
    ensures Run(w, events) == w
    decreases |events|
  {
    if events != [] {
      DoneStays(w, events[1..]);
    }
  }

  // ---- Exactly when a run goes on ----

  predicate Enters(w: WorkflowRun, z: WorkflowRun, step: StepType) {
    |z.history| == |w.history| + 1 && z.history[|w.history|].step == step
  }

  /** A report of PARSE_VERDICT that the run acts on: it succeeded, all reviewers agree on the verdict,
      and an AL4 run has its evidence. */
  ghost predicate Actionable(w: WorkflowRun, r: Report, v: Verdict) {
    !ProviderBlocks(r) && r.succeeded && Decides(r, v) && (w.al4 ==> Al4Evidence(r))
  }

  lemma AfterActionable(w: WorkflowRun, r: Report)
    ensures forall v | Actionable(w, r, v) ::
              Next(PARSE_VERDICT, r, w.loops, w.maxLoops, w.al4) ==
                (if v.A? || v.B? then NextStep(VERIFY)
                 else if v.C? then CorrectOrBlock(w.loops, w.maxLoops) else Blocked(HUMAN_DECISION_REQUIRED(D)))
    ensures (forall v :: !Actionable(w, r, v)) ==> !Next(PARSE_VERDICT, r, w.loops, w.maxLoops, w.al4).NextStep?
  {
    ResolvedDecides(r);
    Al4Exactly(r);
    hide Decides, Al4Evidence, EnforceAl4, ResolveVerdict;
    if ResolveVerdict(r).Resolved? {
      assert Actionable(w, r, ResolveVerdict(r).verdict) || ProviderBlocks(r) || !r.succeeded || (w.al4 && !Al4Evidence(r));
    }
  }

  /** A report enters VERIFY exactly from PARSE_VERDICT with an actionable verdict of A or B. */
  lemma EntersVerifyExactly(w: WorkflowRun, r: Report)
    requires w.history != [] && !w.mode.Done? && !w.mode.Stopped?
    ensures Enters(w, Step(w, Reports(r)), VERIFY) <==>
              w.history[|w.history| - 1].step.PARSE_VERDICT? && (Actionable(w, r, A) || Actionable(w, r, B))
  {
    AfterActionable(w, r);
    hide Actionable, AfterVerdict;
  }

  /** A correction is entered exactly while loops remain, after a failed test, an actionable verdict C,
      or on the order of a human after verdict D. */
  lemma EntersCorrectionExactly(w: WorkflowRun, e: Event)
    requires w.history != [] && !w.mode.Done? && !w.mode.Stopped?
    ensures Enters(w, Step(w, e), CORRECTION) <==>
              && w.loops < w.maxLoops
              && match e
                 case Reports(r) =>
                   || (w.history[|w.history| - 1].step.TEST? && !ProviderBlocks(r) && !r.succeeded)
                   || (w.history[|w.history| - 1].step.PARSE_VERDICT? && Actionable(w, r, C))
                 case OrdersCorrection =>
                   w.history[|w.history| - 1].step.PARSE_VERDICT? && w.mode == Waiting(HUMAN_DECISION_REQUIRED(D))
  {
    if e.Reports? {
      AfterActionable(w, e.report);
    }
    hide Actionable, AfterVerdict;
  }

  /** The step that the success of a step leads to, except where a verdict or a human decides. */
  function Successor(step: StepType): Option<StepType> {
    match step
    case PLAN => Some(BUILD)
    case BUILD => Some(TEST)
    case CORRECTION => Some(TEST)
    case TEST => Some(PACKAGE)
    case PACKAGE => Some(RED_TEAM)
    case RED_TEAM => Some(PARSE_VERDICT)
    case VERIFY => Some(HUMAN_RELEASE_GATE)
    case RELEASE_EXECUTION => Some(REMOTE_VERIFY)
    case _ => None
  }

  /** Everywhere but at the review and the release gate: success goes on to the next step, or completes the run
      at the last one; a failure stops the run for good, except a failed test; a blocked provider makes it wait. */
  lemma GoesOnExactly(w: WorkflowRun, r: Report)
    requires w.history != [] && !w.mode.Done? && !w.mode.Stopped?
    requires !Current(w).PARSE_VERDICT? && !Current(w).HUMAN_RELEASE_GATE?
    ensures var z := Step(w, Reports(r));
            if ProviderBlocks(r) then z == w.(mode := Waiting(PROVIDER_BLOCKED(r.providerStatus.value)))
            else if r.succeeded && Current(w).REMOTE_VERIFY? then z == w.(mode := Done(Some(r)))
            else if r.succeeded then
              Successor(Current(w)).Some?
              && z == w.(history := w.history + [Entry(Successor(Current(w)).value, Some(r))], mode := Running)
            else !Current(w).TEST? ==> z == w.(mode := Stopped)
  {
  }

  /** A release is entered exactly from the gate, with the approval of a human. */
  lemma EntersReleaseExactly(w: WorkflowRun, e: Event)
    requires w.history != [] && !w.mode.Done? && !w.mode.Stopped?
    ensures Enters(w, Step(w, e), RELEASE_EXECUTION) <==>
              && Current(w).HUMAN_RELEASE_GATE?
              && e.Reports? && !ProviderBlocks(e.report) && e.report.humanApproved == Some(true)
  {
    hide EnforceAl4, ResolveVerdict;
  }

  /** A review that is not actionable enters nothing: a failed one stops the run, disagreement or a missing
      verdict makes it wait for that, and missing AL4 evidence for that. */
  lemma ReviewHolds(w: WorkflowRun, r: Report)
    requires w.history != [] && !w.mode.Done? && !w.mode.Stopped? && Current(w).PARSE_VERDICT?
    requires !ProviderBlocks(r) && forall v :: !Actionable(w, r, v)
    ensures var z := Step(w, Reports(r));
            && z == w.(mode := z.mode)
            && (z.mode.Stopped? <==> !r.succeeded)
            && (r.succeeded ==> z.mode.Waiting?)
            && (r.succeeded && (forall v :: !Decides(r, v)) ==> z.mode.reason.REVIEW_DISAGREEMENT?)
            && (r.succeeded && (exists v :: Decides(r, v)) ==> w.al4 && !Al4Evidence(r) && z.mode.reason.ASSURANCE_UNSATISFIED?)
  {
    ResolvedDecides(r);
    Al4Exactly(r);
    hide Decides, Al4Evidence, EnforceAl4;
    if ResolveVerdict(r).Resolved? {
      assert Decides(r, ResolveVerdict(r).verdict) && !Actionable(w, r, ResolveVerdict(r).verdict);
    }
  }

  /** An actionable verdict D stops the run until a human decides. */
  lemma VerdictDWaits(w: WorkflowRun, r: Report)
    requires w.history != [] && !w.mode.Done? && !w.mode.Stopped? && w.history[|w.history| - 1].step.PARSE_VERDICT?
    requires Actionable(w, r, D)
    ensures Step(w, Reports(r)) == w.(mode := Waiting(HUMAN_DECISION_REQUIRED(D)))
  {
    AfterActionable(w, r);
  }

  // ---- The bound is reached ----

  const PASS := Reports(Report(true, Some(A), None, None, Some(true), None))
  const CORRECT := Reports(Report(true, Some(C), None, None, None, None))

  function Current(w: WorkflowRun): StepType {
    if w.history == [] then PLAN else w.history[|w.history| - 1].step
  }

  /** A run standing at `step` with `n` steps entered and `loops` corrections made. */
  ghost predicate Stands(w: WorkflowRun, step: StepType, n: nat, loops: int) {
    w.mode.Running? && !w.al4 && |w.history| == n && n > 0 && Current(w) == step && w.loops == loops
  }

  lemma Passes(w: WorkflowRun, step: StepType, n: nat, loops: int)
    requires Stands(w, step, n, loops)
    ensures step.REMOTE_VERIFY? ==> Step(w, PASS) == w.(mode := Done(Some(PASS.report)))
    ensures !step.REMOTE_VERIFY? ==>
              Next(step, PASS.report, 0, 0, false).NextStep?
              && Stands(Step(w, PASS), Next(step, PASS.report, 0, 0, false).step, n + 1, loops)
              && Step(w, PASS).maxLoops == w.maxLoops
  {
  }

  lemma Corrects(w: WorkflowRun, n: nat, loops: int)
    requires Stands(w, PARSE_VERDICT, n, loops) && loops < w.maxLoops
    ensures Stands(Step(w, CORRECT), CORRECTION, n + 1, loops + 1) && Step(w, CORRECT).maxLoops == w.maxLoops
  {
  }

  /** From TEST: `laps` rounds of testing, review and correction, then straight to the end. */
  function Laps(laps: nat): seq<Event> {
    if laps == 0 then [PASS, PASS, PASS, PASS, PASS, PASS, PASS, PASS]
    else [PASS, PASS, PASS, CORRECT, PASS] + Laps(laps - 1)
  }

  lemma RunOne(w: WorkflowRun, e: Event, events: seq<Event>)
    ensures Run(w, [e] + events) == Run(Step(w, e), events)
  {
  }

  lemma {:induction false} RunMany(w: WorkflowRun, xs: seq<Event>, ys: seq<Event>)
    ensures Run(w, xs + ys) == Run(Run(w, xs), ys)
    decreases |xs|
  {
    hide Step;
    if xs == [] {
      assert xs + ys == ys;
    } else {
      assert (xs + ys)[1..] == xs[1..] + ys;
      RunMany(Step(w, xs[0]), xs[1..], ys);
    }
  }

  lemma OneLap(w: WorkflowRun, n: nat, loops: int)
    requires Stands(w, TEST, n, loops) && loops < w.maxLoops
    ensures var z := Run(w, [PASS, PASS, PASS, CORRECT, PASS]);
            Stands(z, TEST, n + 5, loops + 1) && z.maxLoops == w.maxLoops
  {
    hide Step, Stands;
    Passes(w, TEST, n, loops);
    var w1 := Step(w, PASS);
    Passes(w1, PACKAGE, n + 1, loops);
    var w2 := Step(w1, PASS);
    Passes(w2, RED_TEAM, n + 2, loops);
    var w3 := Step(w2, PASS);
    Corrects(w3, n + 3, loops);
    var w4 := Step(w3, CORRECT);
    Passes(w4, CORRECTION, n + 4, loops + 1);
    RunOne(w4, PASS, []);
    RunOne(w3, CORRECT, [PASS]);
    RunOne(w2, PASS, [CORRECT, PASS]);
    RunOne(w1, PASS, [PASS, CORRECT, PASS]);
    RunOne(w, PASS, [PASS, PASS, CORRECT, PASS]);
    assert [PASS] + [PASS, PASS, CORRECT, PASS] == [PASS, PASS, PASS, CORRECT, PASS];
    assert [PASS] + [PASS, CORRECT, PASS] == [PASS, PASS, CORRECT, PASS];
    assert [PASS] + [CORRECT, PASS] == [PASS, CORRECT, PASS];
    assert [CORRECT] + [PASS] == [CORRECT, PASS];
    assert [PASS] + [] == [PASS];
  }

  function Passing(k: nat): seq<Event> {
    if k == 0 then [] else [PASS] + Passing(k - 1)
  }

  /** Passing every step walks down the ranks to the end. */
  lemma {:induction false} PassesToTheEnd(w: WorkflowRun, step: StepType, n: nat, loops: int)
    requires Stands(w, step, n, loops)
    ensures var z := Run(w, Passing(Rank(step) + 1));
            z.mode.Done? && |z.history| == n + Rank(step) && z.loops == loops
    decreases Rank(step)
  {
    Passes(w, step, n, loops);
    RunOne(w, PASS, Passing(Rank(step)));
    if !step.REMOTE_VERIFY? {
      PassesToTheEnd(Step(w, PASS), Next(step, PASS.report, 0, 0, false).step, n + 1, loops);
    }
  }

  /** Passing every step of a run, AL4 or not, leads to the review of its verdict. */
  lemma {:induction false} PassesToReview(w: WorkflowRun, step: StepType)
    requires w.mode.Running? && w.history != [] && Current(w) == step && Rank(step) >= 4
    ensures var z := Run(w, Passing(Rank(step) - 4));
            z.mode.Running? && |z.history| == |w.history| + Rank(step) - 4 && Current(z) == PARSE_VERDICT && z.al4 == w.al4
    decreases Rank(step)
  {
    if !step.PARSE_VERDICT? {
      RunOne(w, PASS, Passing(Rank(step) - 5));
      PassesToReview(Step(w, PASS), Next(step, PASS.report, 0, 0, false).step);
    }
  }

  /** Some AL4 run enters VERIFY with a reviewer of the builder's family. */
  lemma SharedFamilyVerified(maxLoops: int)
    ensures var w := Run(Start(maxLoops, true), Passing(5) + [Reports(SHARED)]);
            w.history != [] && w.history[|w.history| - 1] == Entry(VERIFY, Some(SHARED))
            && !ReviewersApart(SHARED.independence.value)
  {
    hide Step, EnforceAl4, CheckAl4, Decides, Al4Evidence;
    var w := Start(maxLoops, true);
    PassesToReview(w, PLAN);
    RunMany(w, Passing(5), [Reports(SHARED)]);
    var z := Run(w, Passing(5));
    SharedEntersVerify(z);
    RunOne(z, Reports(SHARED), []);
    assert [Reports(SHARED)] + [] == [Reports(SHARED)];
    SharedFamilyPasses();
  }

  lemma SharedEntersVerify(w: WorkflowRun)
    requires w.mode.Running? && w.history != [] && Current(w) == PARSE_VERDICT
    ensures Step(w, Reports(SHARED)).history == w.history + [Entry(VERIFY, Some(SHARED))]
  {
    SharedFamilyPasses();
    ResolvedDecides(SHARED);
    hide EnforceAl4, CheckAl4, Decides, ResolveVerdict;
  }

  lemma {:induction false} LapsReach(w: WorkflowRun, n: nat, loops: int, laps: nat)
    requires Stands(w, TEST, n, loops) && loops + laps <= w.maxLoops
    ensures var z := Run(w, Laps(laps)); z.mode.Done? && |z.history| == n + 5 * laps + 7 && z.loops == loops + laps
    decreases laps
  {
    hide Step, Stands;
    if laps == 0 {
      PassesToTheEnd(w, TEST, n, loops);
      EightPasses();
    } else {
      OneLap(w, n, loops);
      RunMany(w, [PASS, PASS, PASS, CORRECT, PASS], Laps(laps - 1));
      LapsReach(Run(w, [PASS, PASS, PASS, CORRECT, PASS]), n + 5, loops + 1, laps - 1);
    }
  }

  lemma EightPasses()
    ensures Passing(8) == Laps(0)
  {
  }

  /** For every permitted number of corrections some run makes them all, completes, and has exactly
      5 * maxLoops + 10 steps: neither bound can be lowered. */
  lemma BoundIsTight(maxLoops: nat)
    ensures var w := Run(Start(maxLoops, false), [PASS, PASS] + Laps(maxLoops));
            w.mode.Done? && |w.history| == 5 * maxLoops + 10 && Corrections(w.history) == maxLoops
  {
    var w := Start(maxLoops, false);
    assert Stands(w, PLAN, 1, 0);
    Passes(w, PLAN, 1, 0);
    Passes(Step(w, PASS), BUILD, 2, 0);
    var w2 := Step(Step(w, PASS), PASS);
    RunOne(Step(w, PASS), PASS, []);
    RunOne(w, PASS, [PASS]);
    assert [PASS] + [PASS] == [PASS, PASS] && [PASS] + [] == [PASS];
    RunMany(w, [PASS, PASS], Laps(maxLoops));
    LapsReach(w2, 3, 0, maxLoops);
    StartsWell(maxLoops, false);
    RunKeeps(w, [PASS, PASS] + Laps(maxLoops));
  }

  // ---- The order of reviews does not matter ----

  lemma ReviewOrder(xs: seq<Review>, ys: seq<Review>)
    requires multiset(xs) == multiset(ys)
    ensures |xs| == |ys| && (forall x :: x in xs <==> x in ys)
    ensures (set x | x in ExecutionIds(xs)) == (set x | x in ExecutionIds(ys))
  {
    assert |multiset(xs)| == |xs| && |multiset(ys)| == |ys|;
    forall x ensures x in xs <==> x in ys {
      assert x in multiset(xs) <==> x in multiset(ys);
    }
    IdsOfMembers(xs);
    IdsOfMembers(ys);
  }

  lemma IdsOfMembers(xs: seq<Review>)
    ensures (set x | x in ExecutionIds(xs)) == (set x | x in xs :: x.executionId)
  {
    forall x | x in xs ensures x.executionId in ExecutionIds(xs) {
      var i :| 0 <= i < |xs| && xs[i] == x;
      assert ExecutionIds(xs)[i] == x.executionId;
    }
  }

  /** Outcomes up to the order in which disagreeing verdicts are listed. */
  ghost predicate SameOutcome(x: Outcome, y: Outcome) {
    x == y || (x.Blocked? && y.Blocked? && x.reason.REVIEW_DISAGREEMENT? && y.reason.REVIEW_DISAGREEMENT?
               && multiset(x.reason.verdicts) == multiset(y.reason.verdicts))
  }

  /** The sequence without its `k`-th element. */
  ghost function Without<T>(s: seq<T>, k: nat): seq<T>
    requires k < |s|
  {
    s[..k] + s[k + 1..]
  }

  lemma WithoutOne<T>(s: seq<T>, k: nat)
    requires k < |s|
    ensures multiset(s) == multiset(Without(s, k))[s[k] := multiset(Without(s, k))[s[k]] + 1]
  {
    assert s == s[..k] + [s[k]] + s[k + 1..];
  }

  lemma CutBoth<T>(xs: seq<T>, ys: seq<T>) returns (k: nat)
    requires xs != [] && multiset(xs) == multiset(ys)
    ensures k < |ys| && ys[k] == xs[0] && multiset(Without(xs, 0)) == multiset(Without(ys, k))
  {
    assert xs[0] in multiset(ys);
    k :| 0 <= k < |ys| && ys[k] == xs[0];
    WithoutOne(xs, 0);
    WithoutOne(ys, k);
    hide Without;
    var x, y := multiset(Without(xs, 0)), multiset(Without(ys, k));
    forall t ensures x[t] == y[t] {
      assert multiset(xs)[t] == multiset(ys)[t];
    }
  }

  lemma {:induction false} VerdictOrder(xs: seq<Review>, ys: seq<Review>)
    requires multiset(xs) == multiset(ys)
    ensures multiset(Verdicts(xs)) == multiset(Verdicts(ys))
    decreases |xs|
  {
    if xs == [] {
      assert |multiset(ys)| == 0;
    } else {
      var k := CutBoth(xs, ys);
      VerdictOrder(Without(xs, 0), Without(ys, k));
      VerdictsWithout(xs, 0);
      VerdictsWithout(ys, k);
    }
  }

  lemma VerdictsWithout(xs: seq<Review>, k: nat)
    requires k < |xs|
    ensures multiset(Verdicts(xs))
         == multiset(Verdicts(Without(xs, k)))[xs[k].verdict := multiset(Verdicts(Without(xs, k)))[xs[k].verdict] + 1]
  {
    assert Verdicts(Without(xs, k)) == Without(Verdicts(xs), k);
    WithoutOne(Verdicts(xs), k);
  }

  lemma ResolutionOrder(r: Report, ys: seq<Review>)
    requires r.reviews.Some? && multiset(r.reviews.value) == multiset(ys)
    ensures var x, y := ResolveVerdict(r), ResolveVerdict(r.(reviews := Some(ys)));
            || x == y
            || (x.Unresolved? && y.Unresolved? && SameOutcome(Blocked(x.reason), Blocked(y.reason)))
  {
    var q := r.(reviews := Some(ys));
    ReviewOrder(r.reviews.value, ys);
    VerdictOrder(r.reviews.value, ys);
    ResolvedDecides(r);
    ResolvedDecides(q);
    assert forall v :: Decides(r, v) <==> Decides(q, v);
  }

  /** Permuting the review results changes no transition. */
  lemma OutcomeIgnoresReviewOrder(step: StepType, r: Report, ys: seq<Review>, loops: int, maxLoops: int, al4: bool)
    requires r.reviews.Some? && multiset(r.reviews.value) == multiset(ys)
    ensures SameOutcome(Next(step, r, loops, maxLoops, al4), Next(step, r.(reviews := Some(ys)), loops, maxLoops, al4))
  {
    hide ResolveVerdict, CheckFamilies;
    ResolutionOrder(r, ys);
    ReviewOrder(r.reviews.value, ys);
    assert EnforceAl4(r) == EnforceAl4(r.(reviews := Some(ys)));
  }
}
