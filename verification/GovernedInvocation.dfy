/** The governed invocation protocol: many attempts, interleaved step by step against one idempotency
    store, with crashes, timeouts whose adapter finishes late, and store calls that fail before or
    after they took effect. */
module GovernedInvocation {
  import opened Strings
  import opened Governance
  import opened IdentityKeys
  import opened CommandPolicy
  import opened PathNames
  import opened PathPolicy
  import opened ExecutionPolicy
  import PathLaws
  import ShellScanners

  // ---- Requests and the answers of the trusted resolvers ----

  datatype Request = Request(
    invocationId: string, organizationId: string, workflowRunId: string, workflowStepRunId: string,
    capabilityCode: string, providerId: string, profileHint: Option<Profile>, action: Action,
    requestedPath: Option<string>, requestedCommand: Option<string>, inputReference: Option<string>,
    humanApprovalReference: Option<string>, assuranceLevel: Option<string>,
    maxCost: Option<int>, hasBudget: bool, hasRequestedAt: bool)

  datatype Provider = Provider(
    id: string, organizationId: string, supportsCapability: bool, routable: bool, quotaEligible: bool,
    supportsAssurance: bool, estimatedCost: Option<int>, cloudGoverned: bool, codingAgentAuthorised: bool)

  /** Everything an attempt learns from its resolvers. None of them is shown the profile hint. */
  datatype Environment = Environment(
    storeConfigured: bool, provider: Option<Provider>, adapterRegistered: bool, trustedProfile: Option<Profile>,
    gateResolver: bool, binding: Option<Binding>, homeDir: Option<string>, policy: Option<Policy>,
    commandResolvable: bool, credentialsResolved: bool, workingDirectory: bool, executableTrusted: bool,
    now: int, host: Host)

  datatype Preparation =
    | Throws
    | NotGoverned
    | Blocked(reason: ReasonCode)
    | Cleared(profile: Profile, providerId: string)

  predicate ValidRequest(r: Request) {
    && r.invocationId != [] && r.organizationId != [] && r.workflowRunId != [] && r.workflowStepRunId != []
    && r.capabilityCode != [] && r.providerId != [] && r.profileHint.Some?
    && !(IsFileMutation(r.action) && r.requestedCommand.Some?)
    && !(r.action.RUN_COMMAND? && r.requestedPath.Some?)
    && r.hasBudget && r.hasRequestedAt
  }

  predicate EligibleProvider(r: Request, p: Provider) {
    && p.organizationId == r.organizationId && p.supportsCapability && p.routable && p.quotaEligible
    && (r.assuranceLevel.Some? ==> p.supportsAssurance)
    && (r.maxCost.Some? ==> p.estimatedCost.Some? && p.estimatedCost.value <= r.maxCost.value)
  }

  function GateOf(r: Request): GateContext {
    GateContext(r.organizationId, r.workflowRunId, r.workflowStepRunId, r.capabilityCode, r.providerId, r.inputReference, r.action)
  }

  predicate GateApproved(r: Request, env: Environment) {
    Given(r.humanApprovalReference) && env.gateResolver && GateApproves(env.binding, GateOf(r), env.now)
  }

  /** The policy, with the exact coding-agent alias added when every server-side condition holds. */
  function EffectivePolicy(r: Request, p: Provider, profile: Profile, env: Environment): Option<Policy> {
    if env.policy.Some? && r.action.RUN_COMMAND? && profile.BUILDER? && p.codingAgentAuthorised
       && (r.capabilityCode == "CODE_BUILD" || (r.capabilityCode == "CODE_PLAN" && p.cloudGoverned))
       && Given(r.requestedCommand) && env.commandResolvable
    then Some(env.policy.value.(trustedCodingAgentAliases := Some([ShellScanners.Trim(r.requestedCommand.value)])))
    else env.policy
  }

  function ContextOf(r: Request, p: Provider, profile: Profile, env: Environment): Context {
    Context(profile, r.action, r.requestedPath, r.requestedCommand,
            if Given(r.requestedPath) then env.homeDir else None,
            EffectivePolicy(r, p, profile, env), GateApproved(r, env))
  }

  /** Everything `invoke` does before the claim. */
  function Prepare(r: Request, env: Environment): Preparation {
    if !ValidRequest(r) || (IsConsequential(r.action) && !env.storeConfigured) then Throws
    else if env.provider.None? || !EligibleProvider(r, env.provider.value) || !env.adapterRegistered then Throws
    else if env.trustedProfile.None? then NotGoverned
    else if (Given(r.requestedPath) && !Given(env.homeDir)) || env.policy.None? then Throws
    else
      var p, profile := env.provider.value, env.trustedProfile.value;
      var d := Evaluate(env.host, ContextOf(r, p, profile, env));
      if !d.allowed then Blocked(d.reasonCode)
      else if !env.credentialsResolved || !env.workingDirectory || (Given(r.requestedCommand) && !env.executableTrusted) then Throws
      else Cleared(profile, p.id)
  }

  function FieldsOf(r: Request): OperationFields {
    OperationFields(r.organizationId, r.workflowRunId, r.workflowStepRunId, r.capabilityCode, r.action,
                    r.requestedPath, r.requestedCommand, r.inputReference)
  }

  function KeyOf(r: Request): string {
    LogicalOperationKey(FieldsOf(r))
  }

  function FingerprintOf(r: Request, providerId: string, profile: Profile): string {
    InvocationFingerprint(ContextFields(r.organizationId, r.workflowRunId, r.workflowStepRunId, r.capabilityCode,
                                        providerId, r.action, profile, r.assuranceLevel, r.inputReference))
  }

  // ---- Protocol state ----

  datatype ClaimState = IN_PROGRESS | COMPLETED | TIMED_OUT_UNKNOWN | FAILED_UNKNOWN

  /** A row of the claim table; `claimant` records which attempt inserted it. */
  datatype Claim = Claim(invocationId: string, fingerprint: string, state: ClaimState, claimant: nat)

  datatype Ending = DidThrow | Ungoverned | Denied | Duplicate | Conflict | ClaimFailed | Finished(status: AgentStatus) | Crashed

  datatype Phase =
    | Fresh
    | Claiming(key: string, fingerprint: string)
    | Inspecting(key: string)
    | Ready(claimed: Option<string>)
    | Executing(claimed: Option<string>)
    | Marking(key: string, status: AgentStatus)
    | Ended(ending: Ending)

  datatype Attempt = Attempt(request: Request, env: Environment, phase: Phase, adapterBusy: bool)

  /** One call of `adapter.execute`. */
  datatype Execution = Execution(attempt: nat, request: Request, env: Environment)

  /** One terminal state written to a claim. */
  datatype Mark = Mark(key: string, attempt: nat, state: ClaimState)

  datatype State = State(
    claims: map<string, Claim>, attempts: map<nat, Attempt>, executions: seq<Execution>, marks: seq<Mark>)

  const INIT := State(map[], map[], [], [])

  /** A store call succeeds, fails without effect, or takes effect and still reports a failure. */
  datatype Fault = NoFault | FailsBefore | FailsAfter

  datatype Event =
    | Begin(attempt: nat, request: Request, env: Environment)
    | Prepares(attempt: nat)
    | Claims(attempt: nat, fault: Fault)
    | Inspects(attempt: nat, fails: bool)
    | Executes(attempt: nat)
    | AdapterReturns(attempt: nat, status: AgentStatus)
    | AdapterThrows(attempt: nat)
    | NormalizationThrows(attempt: nat)
    | TimesOut(attempt: nat)
    | AdapterFinishesLate(attempt: nat)
    | Marks(attempt: nat, fault: Fault)
    | Crashes(attempt: nat)

  predicate ReachableFromRunning(status: AgentStatus) {
    status.SUCCEEDED? || status.FAILED? || status.TIMED_OUT? || status.CANCELLED? || status.QUOTA_BLOCKED?
  }

  function ClaimStateFor(status: AgentStatus): ClaimState {
    match status
    case SUCCEEDED => COMPLETED
    case TIMED_OUT => TIMED_OUT_UNKNOWN
    case _ => FAILED_UNKNOWN
  }

  function AfterPreparation(r: Request, prep: Preparation): Phase {
    match prep
    case Throws => Ended(DidThrow)
    case NotGoverned => Ended(Ungoverned)
    case Blocked(_) => Ended(Denied)
    case Cleared(profile, providerId) =>
      if IsConsequential(r.action) then Claiming(KeyOf(r), FingerprintOf(r, providerId, profile)) else Ready(None)
  }

  function AfterAdapter(claimed: Option<string>, status: AgentStatus): Phase {
    match claimed
    case None => Ended(Finished(status))
    case Some(key) => Marking(key, status)
  }

  predicate InvocationIdUsed(claims: map<string, Claim>, id: string) {
    exists k | k in claims :: claims[k].invocationId == id
  }

  function Goto(s: State, a: nat, phase: Phase): State
    requires a in s.attempts
  {
    s.(attempts := s.attempts[a := s.attempts[a].(phase := phase)])
  }

  // ---- Steps ----

  /** The insert of a claim row: both unique keys are enforced by the table. */
  function ClaimStep(s: State, a: nat, fault: Fault): State
    requires a in s.attempts && s.attempts[a].phase.Claiming?
  {
    var t := s.attempts[a];
    if fault.FailsBefore? then Goto(s, a, Ended(ClaimFailed))
    else if t.phase.key in s.claims || InvocationIdUsed(s.claims, t.request.invocationId) then
      Goto(s, a, if fault.NoFault? then Inspecting(t.phase.key) else Ended(ClaimFailed))
    else
      var inserted := s.(claims := s.claims[t.phase.key := Claim(t.request.invocationId, t.phase.fingerprint, IN_PROGRESS, a)]);
      Goto(inserted, a, if fault.NoFault? then Ready(Some(t.phase.key)) else Ended(ClaimFailed))
  }

  /** After a unique violation the rows are read back to tell a duplicate from a reused attempt identity. */
  function InspectStep(s: State, a: nat, fails: bool): State
    requires a in s.attempts && s.attempts[a].phase.Inspecting?
  {
    var key, id := s.attempts[a].phase.key, s.attempts[a].request.invocationId;
    var ending :=
      if fails then ClaimFailed
      else if key in s.claims && s.claims[key].invocationId == id then Duplicate
      else if exists k | k in s.claims :: k != key && s.claims[k].invocationId == id then Conflict
      else if key in s.claims then Duplicate
      else ClaimFailed;
    Goto(s, a, Ended(ending))
  }

  /** `markCompleted`: only the owner's claim, only while it is in progress. */
  function MarkStep(s: State, a: nat, fault: Fault): State
    requires a in s.attempts && s.attempts[a].phase.Marking?
  {
    var t := s.attempts[a];
    var key, state := t.phase.key, ClaimStateFor(t.phase.status);
    var ended := Goto(s, a, Ended(Finished(t.phase.status)));
    if !fault.FailsBefore? && key in s.claims && s.claims[key].invocationId == t.request.invocationId
       && s.claims[key].state.IN_PROGRESS?
    then ended.(claims := s.claims[key := s.claims[key].(state := state)], marks := s.marks + [Mark(key, a, state)])
    else ended
  }

  /** The effect of one event; an event that is not enabled changes nothing. */
  function Step(s: State, e: Event): State {
    if e.Begin? then
      if e.attempt in s.attempts then s
      else s.(attempts := s.attempts[e.attempt := Attempt(e.request, e.env, Fresh, false)])
    else if e.attempt !in s.attempts then s
    else
      var a := e.attempt;
      var t := s.attempts[a];
      match e
      case Prepares(_) => if t.phase.Fresh? then Goto(s, a, AfterPreparation(t.request, Prepare(t.request, t.env))) else s
      case Claims(_, fault) => if t.phase.Claiming? then ClaimStep(s, a, fault) else s
      case Inspects(_, fails) => if t.phase.Inspecting? then InspectStep(s, a, fails) else s
      case Executes(_) =>
        if t.phase.Ready? then
          s.(attempts := s.attempts[a := t.(phase := Executing(t.phase.claimed), adapterBusy := true)],
             executions := s.executions + [Execution(a, t.request, t.env)])
        else s
      case AdapterReturns(_, status) =>
        if t.phase.Executing? then
          s.(attempts := s.attempts[a := t.(phase := AfterAdapter(t.phase.claimed, if ReachableFromRunning(status) then status else FAILED),
                                            adapterBusy := false)])
        else s
      case AdapterThrows(_) =>
        if t.phase.Executing? then
          s.(attempts := s.attempts[a := t.(phase := AfterAdapter(t.phase.claimed, FAILED), adapterBusy := false)])
        else s
      case NormalizationThrows(_) =>
        if t.phase.Executing? then
          s.(attempts := s.attempts[a := t.(phase := Ended(DidThrow), adapterBusy := false)])
        else s
      case TimesOut(_) => if t.phase.Executing? then Goto(s, a, AfterAdapter(t.phase.claimed, TIMED_OUT)) else s
      case AdapterFinishesLate(_) => s.(attempts := s.attempts[a := t.(adapterBusy := false)])
      case Marks(_, fault) => if t.phase.Marking? then MarkStep(s, a, fault) else s
      case Crashes(_) => if t.phase.Ended? then s else Goto(s, a, Ended(Crashed))
      case Begin(_, _, _) => s
  }

  /** The state after a whole run. Every reachable state is `Run(INIT, events)` for some events. */
  function Run(s: State, events: seq<Event>): State
    decreases |events|
  {
    if events == [] then s else Run(Step(s, events[0]), events[1..])
  }

  // ---- The invariant ----

  ghost predicate Owns(claims: map<string, Claim>, a: nat, key: string) {
    key in claims && claims[key].claimant == a
  }

  ghost predicate GoodClaim(claims: map<string, Claim>, a: nat, r: Request, claimed: Option<string>) {
    if IsConsequential(r.action) then claimed == Some(KeyOf(r)) && Owns(claims, a, KeyOf(r)) else claimed.None?
  }

  ghost predicate GoodAttempt(claims: map<string, Claim>, a: nat, t: Attempt) {
    match t.phase
    case Claiming(key, _) => IsConsequential(t.request.action) && key == KeyOf(t.request) && Prepare(t.request, t.env).Cleared?
    case Ready(claimed) => Prepare(t.request, t.env).Cleared? && GoodClaim(claims, a, t.request, claimed)
    case Executing(claimed) => GoodClaim(claims, a, t.request, claimed)
    case Marking(key, _) => Owns(claims, a, key)
    case _ => true
  }

  predicate PastExecution(phase: Phase) {
    phase.Executing? || phase.Marking? || phase.Ended?
  }

  ghost predicate GoodExecution(claims: map<string, Claim>, attempts: map<nat, Attempt>, e: Execution) {
    && e.attempt in attempts && PastExecution(attempts[e.attempt].phase)
    && Prepare(e.request, e.env).Cleared?
    && (IsConsequential(e.request.action) ==> Owns(claims, e.attempt, KeyOf(e.request)))
  }

  ghost predicate GoodMark(claims: map<string, Claim>, m: Mark) {
    && Owns(claims, m.attempt, m.key) && claims[m.key].state == m.state && !m.state.IN_PROGRESS?
  }

  ghost predicate Inv(s: State) {
    && (forall a | a in s.attempts :: GoodAttempt(s.claims, a, s.attempts[a]))
    && (forall i | 0 <= i < |s.executions| :: GoodExecution(s.claims, s.attempts, s.executions[i]))
    && (forall i, j | 0 <= i < j < |s.executions| :: s.executions[i].attempt != s.executions[j].attempt)
    && (forall i | 0 <= i < |s.marks| :: GoodMark(s.claims, s.marks[i]))
    && (forall i, j | 0 <= i < j < |s.marks| :: s.marks[i].key != s.marks[j].key)
  }

  /** Claims are only ever added, keep their owner, and leave `IN_PROGRESS` at most once. */
  ghost predicate ClaimsKept(before: map<string, Claim>, after: map<string, Claim>) {
    forall k | k in before ::
      && k in after
      && after[k].invocationId == before[k].invocationId && after[k].fingerprint == before[k].fingerprint
      && after[k].claimant == before[k].claimant
      && (before[k].state.IN_PROGRESS? || after[k].state == before[k].state)
  }

  lemma ReplaceKeeps(s: State, a: nat, t: Attempt)
    requires Inv(s) && GoodAttempt(s.claims, a, t)
    requires a in s.attempts ==> (PastExecution(s.attempts[a].phase) ==> PastExecution(t.phase))
    ensures Inv(s.(attempts := s.attempts[a := t]))
  {
  }

  /** A grown claim table keeps every attempt good. */
  lemma ClaimsGrow(s: State, claims: map<string, Claim>)
    requires Inv(s) && forall k | k in s.claims :: k in claims && claims[k] == s.claims[k]
    ensures Inv(s.(claims := claims))
  {
    hide KeyOf, Prepare;
  }

  lemma ClaimKeeps(s: State, a: nat, fault: Fault)
    requires Inv(s) && a in s.attempts && s.attempts[a].phase.Claiming?
    ensures Inv(ClaimStep(s, a, fault)) && ClaimsKept(s.claims, ClaimStep(s, a, fault).claims)
  {
    hide KeyOf, Prepare;
    var t := s.attempts[a];
    if fault.FailsBefore? {
      ReplaceKeeps(s, a, t.(phase := Ended(ClaimFailed)));
    } else if t.phase.key in s.claims || InvocationIdUsed(s.claims, t.request.invocationId) {
      ReplaceKeeps(s, a, t.(phase := if fault.NoFault? then Inspecting(t.phase.key) else Ended(ClaimFailed)));
    } else {
      var inserted := s.(claims := s.claims[t.phase.key := Claim(t.request.invocationId, t.phase.fingerprint, IN_PROGRESS, a)]);
      ClaimsGrow(s, inserted.claims);
      ReplaceKeeps(inserted, a, t.(phase := if fault.NoFault? then Ready(Some(t.phase.key)) else Ended(ClaimFailed)));
    }
  }

  lemma MarkKeeps(s: State, a: nat, fault: Fault)
    requires Inv(s) && a in s.attempts && s.attempts[a].phase.Marking?
    ensures Inv(MarkStep(s, a, fault)) && ClaimsKept(s.claims, MarkStep(s, a, fault).claims)
  {
    hide KeyOf, Prepare;
    var t := s.attempts[a];
    ReplaceKeeps(s, a, t.(phase := Ended(Finished(t.phase.status))));
    var ended := Goto(s, a, Ended(Finished(t.phase.status)));
    var key := t.phase.key;
    if MarkStep(s, a, fault) != ended {
      MarkWrites(ended, a, key, ClaimStateFor(t.phase.status));
    }
  }

  lemma MarkWrites(s: State, a: nat, key: string, state: ClaimState)
    requires Inv(s) && Owns(s.claims, a, key) && s.claims[key].state.IN_PROGRESS? && !state.IN_PROGRESS?
    ensures Inv(s.(claims := s.claims[key := s.claims[key].(state := state)], marks := s.marks + [Mark(key, a, state)]))
  {
    hide KeyOf, Prepare;
  }

  lemma ExecuteKeeps(s: State, a: nat)
    requires Inv(s) && a in s.attempts && s.attempts[a].phase.Ready?
    ensures Inv(Step(s, Executes(a)))
  {
    hide KeyOf, Prepare;
    var t := s.attempts[a];
    var running := t.(phase := Executing(t.phase.claimed), adapterBusy := true);
    ReplaceKeeps(s, a, running);
    var mid := s.(attempts := s.attempts[a := running]);
    assert forall i | 0 <= i < |s.executions| :: s.executions[i].attempt != a;
    assert GoodExecution(mid.claims, mid.attempts, Execution(a, t.request, t.env));
  }

  /** Every event keeps the invariant and every claim. */
  lemma StepKeeps(s: State, e: Event)
    requires Inv(s)
    ensures Inv(Step(s, e)) && ClaimsKept(s.claims, Step(s, e).claims)
  {
    hide KeyOf, Prepare, FingerprintOf;
    if e.Begin? {
      if e.attempt !in s.attempts {
        ReplaceKeeps(s, e.attempt, Attempt(e.request, e.env, Fresh, false));
      }
    } else if e.attempt in s.attempts {
      var a := e.attempt;
      var t := s.attempts[a];
      match e
      case Prepares(_) =>
        if t.phase.Fresh? {
          ReplaceKeeps(s, a, t.(phase := AfterPreparation(t.request, Prepare(t.request, t.env))));
        }
      case Claims(_, fault) => if t.phase.Claiming? { ClaimKeeps(s, a, fault); }
      case Inspects(_, fails) => if t.phase.Inspecting? { ReplaceKeeps(s, a, InspectStep(s, a, fails).attempts[a]); }
      case Executes(_) => if t.phase.Ready? { ExecuteKeeps(s, a); }
      case Marks(_, fault) => if t.phase.Marking? { MarkKeeps(s, a, fault); }
      case _ => AdapterKeeps(s, e);
    }
  }

  lemma AdapterKeeps(s: State, e: Event)
    requires Inv(s) && e.attempt in s.attempts
    requires e.AdapterReturns? || e.AdapterThrows? || e.NormalizationThrows? || e.TimesOut? || e.AdapterFinishesLate? || e.Crashes?
    ensures Inv(Step(s, e)) && ClaimsKept(s.claims, Step(s, e).claims)
  {
    hide KeyOf, Prepare, FingerprintOf;
    var s' := Step(s, e);
    assert s' == s.(attempts := s.attempts[e.attempt := s'.attempts[e.attempt]]);
    ReplaceKeeps(s, e.attempt, s'.attempts[e.attempt]);
  }

  lemma {:induction false} RunKeeps(s: State, events: seq<Event>)
    requires Inv(s)
    ensures Inv(Run(s, events)) && ClaimsKept(s.claims, Run(s, events).claims)
    decreases |events|
  {
    hide KeyOf, Prepare, Step;
    if events == [] {
    } else {
      StepKeeps(s, events[0]);
      RunKeeps(Step(s, events[0]), events[1..]);
    }
  }

  // ---- Main results over every run ----

  /** The requests ask for the same work: the same action for the same organization, run, step, capability and
      input, on the same file or with the same command where the action has one. */
  predicate SameWork(r: Request, q: Request) {
    && r.organizationId == q.organizationId && r.workflowRunId == q.workflowRunId
    && r.workflowStepRunId == q.workflowStepRunId && r.capabilityCode == q.capabilityCode
    && r.action == q.action && r.inputReference == q.inputReference
    && (r.action in [WRITE_FILE, CREATE_FILE, DELETE_FILE] ==> r.requestedPath == q.requestedPath)
    && (r.action == RUN_COMMAND ==> r.requestedCommand == q.requestedCommand)
  }

  /** Two requests claim the same key exactly when they ask for the same work. */
  lemma KeysExactly(r: Request, q: Request)
    ensures KeyOf(r) == KeyOf(q) <==> SameWork(r, q)
  {
    LogicalOperationKeyInjective(FieldsOf(r), FieldsOf(q));
    hide LogicalOperationKey;
  }

  /** Two claims carry the same fingerprint exactly when requests, provider and profile agree in every field of
      the governed context. */
  lemma FingerprintsExactly(r: Request, p: string, profile: Profile, q: Request, p': string, profile': Profile)
    ensures FingerprintOf(r, p, profile) == FingerprintOf(q, p', profile') <==>
              && r.organizationId == q.organizationId && r.workflowRunId == q.workflowRunId
              && r.workflowStepRunId == q.workflowStepRunId && r.capabilityCode == q.capabilityCode
              && r.action == q.action && r.assuranceLevel == q.assuranceLevel && r.inputReference == q.inputReference
              && p == p' && profile == profile'
  {
    var x := ContextFields(r.organizationId, r.workflowRunId, r.workflowStepRunId, r.capabilityCode, p, r.action, profile, r.assuranceLevel, r.inputReference);
    var y := ContextFields(q.organizationId, q.workflowRunId, q.workflowStepRunId, q.capabilityCode, p', q.action, profile', q.assuranceLevel, q.inputReference);
    InvocationFingerprintInjective(x, y);
    hide InvocationFingerprint;
  }

  /** In every interleaving the adapter runs at most once for the same work that does more than read. */
  lemma AtMostOnce(events: seq<Event>, i: nat, j: nat)
    requires var x := Run(INIT, events).executions;
             i < |x| && j < |x| && x[i].request.action !in [READ_FILE, GIT_READ] && SameWork(x[i].request, x[j].request)
    ensures i == j
  {
    hide Step, Prepare, Evaluate, KeyOf, FileAuthorised, CommandAuthorised;
    RunKeeps(INIT, events);
    var s := Run(INIT, events);
    ExecutionsAuthorised(events, i);
    KeysExactly(s.executions[i].request, s.executions[j].request);
    assert GoodExecution(s.claims, s.attempts, s.executions[i]) && GoodExecution(s.claims, s.attempts, s.executions[j]);
    assert s.executions[i].attempt == s.executions[j].attempt;
  }

  /** A claim that some run has made is still there, with the same owner and fingerprint, after any
      continuation; once terminal, its state never changes again. */
  lemma ClaimsNeverFreed(before: seq<Event>, after: seq<Event>)
    ensures ClaimsKept(Run(INIT, before).claims, Run(INIT, before + after).claims)
  {
    RunKeeps(INIT, before);
    RunConcat(INIT, before, after);
    RunKeeps(Run(INIT, before), after);
  }

  lemma {:induction false} RunConcat(s: State, xs: seq<Event>, ys: seq<Event>)
    ensures Run(s, xs + ys) == Run(Run(s, xs), ys)
    decreases |xs|
  {
    hide Step;
    if xs == [] {
      assert xs + ys == ys;
    } else {
      assert (xs + ys)[1..] == xs[1..] + ys;
      RunConcat(Step(s, xs[0]), xs[1..], ys);
    }
  }

  /** The terminal state of a claim is written at most once, and only by the attempt that claimed it. */
  lemma MarkedOnceByClaimant(events: seq<Event>, i: nat, j: nat)
    requires i < |Run(INIT, events).marks| && j < |Run(INIT, events).marks|
    ensures var s := Run(INIT, events);
            && Owns(s.claims, s.marks[i].attempt, s.marks[i].key)
            && s.claims[s.marks[i].key].state == s.marks[i].state
            && (s.marks[i].key == s.marks[j].key ==> i == j)
  {
    RunKeeps(INIT, events);
    assert GoodMark(Run(INIT, events).claims, Run(INIT, events).marks[i]);
  }

  // ---- What a terminal state says ----

  predicate Explains(state: ClaimState, status: AgentStatus) {
    && (state.COMPLETED? <==> status.SUCCEEDED?)
    && (state.TIMED_OUT_UNKNOWN? <==> status.TIMED_OUT?)
    && (state.FAILED_UNKNOWN? <==> !status.SUCCEEDED? && !status.TIMED_OUT?)
  }

  ghost predicate Executed(s: State, a: nat) {
    exists k :: 0 <= k < |s.executions| && s.executions[k].attempt == a
  }

  ghost predicate MarkExplained(s: State, m: Mark) {
    && Executed(s, m.attempt) && m.attempt in s.attempts
    && s.attempts[m.attempt].phase.Ended? && s.attempts[m.attempt].phase.ending.Finished?
    && Explains(m.state, s.attempts[m.attempt].phase.ending.status)
  }

  predicate Underway(phase: Phase) { phase.Executing? || phase.Marking? }

  ghost predicate HistoryOk(s: State) {
    && (forall a | a in s.attempts && Underway(s.attempts[a].phase) :: Executed(s, a))
    && (forall i | 0 <= i < |s.marks| :: MarkExplained(s, s.marks[i]))
  }

  /** Executions are never taken back, an ended attempt stays as it is, and only a `Marks` step marks. */
  lemma StepHistory(s: State, e: Event)
    requires e.attempt in s.attempts && !e.Begin?
    ensures var z := Step(s, e);
            && s.executions <= z.executions && e.attempt in z.attempts
            && z.attempts == s.attempts[e.attempt := z.attempts[e.attempt]]
            && (s.attempts[e.attempt].phase.Ended? ==> z.attempts[e.attempt].phase == s.attempts[e.attempt].phase)
            && (Underway(z.attempts[e.attempt].phase) ==> Underway(s.attempts[e.attempt].phase) || Executed(z, e.attempt))
  {
    OnlyThisAttempt(s, e);
    hide Prepare, KeyOf, FingerprintOf, ClaimStateFor, InvocationIdUsed;
    var z := Step(s, e);
    if e.Executes? && s.attempts[e.attempt].phase.Ready? {
      assert z.executions[|s.executions|].attempt == e.attempt;
    }
  }

  lemma StepMarks(s: State, e: Event)
    requires e.attempt in s.attempts && !e.Begin?
    ensures var z := Step(s, e);
            || z.marks == s.marks
            || (&& s.attempts[e.attempt].phase.Marking? && z.executions == s.executions
                && z.attempts[e.attempt].phase == Ended(Finished(s.attempts[e.attempt].phase.status))
                && |z.marks| == |s.marks| + 1 && z.marks[..|s.marks|] == s.marks
                && z.marks[|s.marks|].attempt == e.attempt
                && Explains(z.marks[|s.marks|].state, s.attempts[e.attempt].phase.status))
  {
    hide Prepare, KeyOf, FingerprintOf, InvocationIdUsed, AfterAdapter, AfterPreparation;
  }

  lemma MoreExecuted(s: State, z: State, a: nat)
    requires s.executions <= z.executions && Executed(s, a)
    ensures Executed(z, a)
  {
  }

  lemma StepKeepsHistory(s: State, e: Event)
    requires HistoryOk(s)
    ensures HistoryOk(Step(s, e))
  {
    var z := Step(s, e);
    if !e.Begin? && e.attempt in s.attempts {
      StepHistory(s, e);
      StepMarks(s, e);
      hide Step, Explains, Executed;
      forall a | a in z.attempts && Underway(z.attempts[a].phase) ensures Executed(z, a) {
        if Underway(s.attempts[a].phase) {
          MoreExecuted(s, z, a);
        }
      }
      forall i | 0 <= i < |z.marks| ensures MarkExplained(z, z.marks[i]) {
        if i < |s.marks| {
          assert z.marks[i] == s.marks[i];
          MoreExecuted(s, z, s.marks[i].attempt);
        } else {
          MoreExecuted(s, z, e.attempt);
        }
      }
    } else {
      BeginKeepsHistory(s, e);
    }
  }

  lemma BeginKeepsHistory(s: State, e: Event)
    requires HistoryOk(s) && (e.Begin? || e.attempt !in s.attempts)
    ensures HistoryOk(Step(s, e))
  {
  }

  lemma {:induction false} RunKeepsHistory(s: State, events: seq<Event>)
    requires HistoryOk(s)
    ensures HistoryOk(Run(s, events))
    decreases |events|
  {
    hide Step, HistoryOk;
    if events != [] {
      StepKeepsHistory(s, events[0]);
      RunKeepsHistory(Step(s, events[0]), events[1..]);
    }
  }

  /** The attempt is finishing or has finished with success. */
  predicate Succeeding(s: State, a: nat) {
    && a in s.attempts
    && (s.attempts[a].phase == Ended(Finished(SUCCEEDED)) || (s.attempts[a].phase.Marking? && s.attempts[a].phase.status.SUCCEEDED?))
  }

  lemma StepSucceeds(s: State, e: Event, a: nat)
    requires Succeeding(Step(s, e), a)
    ensures Succeeding(s, a) || e == AdapterReturns(a, SUCCEEDED)
  {
    hide Prepare, KeyOf, FingerprintOf, ClaimStateFor, InvocationIdUsed;
    if !e.Begin? && e.attempt in s.attempts {
      OnlyThisAttempt(s, e);
    }
  }

  lemma {:induction false} SuccessHasCause(s: State, events: seq<Event>, a: nat)
    requires Succeeding(Run(s, events), a)
    ensures Succeeding(s, a) || AdapterReturns(a, SUCCEEDED) in events
    decreases |events|
  {
    hide Step, Succeeding;
    if events != [] {
      SuccessHasCause(Step(s, events[0]), events[1..], a);
      if Succeeding(Step(s, events[0]), a) {
        StepSucceeds(s, events[0], a);
      }
    }
  }

  /** A claim is marked only after its adapter was called; it is marked completed only if the adapter
      returned success, unknown-after-timeout exactly when the attempt timed out, and failed otherwise. */
  lemma MarksAreTruthful(events: seq<Event>, i: nat)
    requires i < |Run(INIT, events).marks|
    ensures var s := Run(INIT, events);
            && MarkExplained(s, s.marks[i])
            && (s.marks[i].state.COMPLETED? ==> AdapterReturns(s.marks[i].attempt, SUCCEEDED) in events)
  {
    hide Step;
    RunKeepsHistory(INIT, events);
    var s := Run(INIT, events);
    if s.marks[i].state.COMPLETED? {
      SuccessHasCause(INIT, events, s.marks[i].attempt);
    }
  }

  /** Everything an invocation needs before its adapter may run, spelled out request by request and answer by
      answer, without reference to the code that decides it. */
  ghost predicate Authorised(r: Request, env: Environment) {
    && WellFormed(r) && (IsConsequential(r.action) ==> env.storeConfigured)
    && env.provider.Some? && Serves(env.provider.value, r) && env.adapterRegistered
    && env.trustedProfile.Some? && env.policy.Some?
    && (Given(r.requestedPath) ==> Given(env.homeDir))
    && ActionAuthorised(r, env, env.provider.value, env.trustedProfile.value, env.policy.value)
    && env.credentialsResolved && env.workingDirectory && (Given(r.requestedCommand) ==> env.executableTrusted)
  }

  /** All identities present, a hint, a budget and a time, and a path or a command only where the action has one. */
  predicate WellFormed(r: Request) {
    && "" !in [r.invocationId, r.organizationId, r.workflowRunId, r.workflowStepRunId, r.capabilityCode, r.providerId]
    && r.profileHint != None && r.hasBudget && r.hasRequestedAt
    && (r.requestedCommand.Some? ==> r.action !in [WRITE_FILE, CREATE_FILE, DELETE_FILE])
    && (r.requestedPath.Some? ==> r.action != RUN_COMMAND)
  }

  /** The provider belongs to the organization of the request and can take it on now, within its budget. */
  predicate Serves(p: Provider, r: Request) {
    && p.organizationId == r.organizationId
    && p.supportsCapability && p.routable && p.quotaEligible
    && (p.supportsAssurance || r.assuranceLevel == None)
    && (r.maxCost == None || (p.estimatedCost.Some? && p.estimatedCost.value <= r.maxCost.value))
  }

  ghost predicate ActionAuthorised(r: Request, env: Environment, p: Provider, profile: Profile, policy: Policy) {
    match r.action
    case NETWORK_ACCESS => policy.allowNetwork
    case GIT_READ => true
    case GIT_COMMIT => policy.allowGitCommit && Released(r, env, profile)
    case GIT_PUSH => policy.allowGitPush && Released(r, env, profile)
    case RUN_COMMAND => Given(r.requestedCommand) && CommandAuthorised(r, env, p, profile, policy)
    case READ_FILE => FileAuthorised(r, env, profile, policy)
    case WRITE_FILE => FileAuthorised(r, env, profile, policy) && profile == BUILDER
    case CREATE_FILE => FileAuthorised(r, env, profile, policy) && profile == BUILDER
    case DELETE_FILE => FileAuthorised(r, env, profile, policy) && profile == BUILDER
    case _ => false
  }

  /** A human approval was referred to, resolved, and covers exactly this release. */
  predicate Released(r: Request, env: Environment, profile: Profile) {
    && Given(r.humanApprovalReference) && env.gateResolver
    && ReleaseAuthorised(profile, env.binding, GateOf(r), env.now)
  }

  /** The command is cleared by the policy, or is the coding agent of an authorised builder and shows no
      dangerous shape. */
  predicate CommandAuthorised(r: Request, env: Environment, p: Provider, profile: Profile, policy: Policy)
    requires r.requestedCommand.Some?
  {
    var command := r.requestedCommand.value;
    || CommandCleared(command, profile, policy)
    || (&& Presentable(ShellScanners.Trim(command)) && profile == BUILDER && p.codingAgentAuthorised && env.commandResolvable
        && (r.capabilityCode == "CODE_BUILD" || (r.capabilityCode == "CODE_PLAN" && p.cloudGoverned)))
  }

  ghost predicate FileAuthorised(r: Request, env: Environment, profile: Profile, policy: Policy) {
    PathCleared(env.host, Context(profile, r.action, r.requestedPath, None, env.homeDir, None, false), policy)
  }

  lemma WellFormedExactly(r: Request)
    ensures WellFormed(r) <==> ValidRequest(r)
  {
  }

  lemma ServesExactly(r: Request, p: Provider)
    ensures Serves(p, r) <==> EligibleProvider(r, p)
  {
  }

  lemma ReleasedExactly(r: Request, env: Environment, profile: Profile)
    requires r.action.GIT_COMMIT? || r.action.GIT_PUSH?
    ensures Released(r, env, profile) <==> profile.RELEASE_AUTHORITY? && GateApproved(r, env)
  {
  }

  /** The alias added for the coding agent is the command itself, so then only its shape counts. */
  lemma CommandAuthorisedExactly(r: Request, env: Environment, p: Provider, profile: Profile)
    requires r.action.RUN_COMMAND? && Given(r.requestedCommand) && env.policy.Some?
    ensures CommandAuthorised(r, env, p, profile, env.policy.value) <==>
              CommandCleared(r.requestedCommand.value, profile, EffectivePolicy(r, p, profile, env).value)
  {
    hide Barred, Granted, Listed, Presentable;
  }

  lemma ActionAuthorisedExactly(r: Request, env: Environment)
    requires env.provider.Some? && env.trustedProfile.Some? && env.policy.Some?
    ensures ActionAuthorised(r, env, env.provider.value, env.trustedProfile.value, env.policy.value) <==>
              Evaluate(env.host, ContextOf(r, env.provider.value, env.trustedProfile.value, env)).allowed
  {
    var p, profile := env.provider.value, env.trustedProfile.value;
    DecisionExactly(env.host, ContextOf(r, p, profile, env));
    hide Evaluate, Released, CommandAuthorised, CommandCleared, GateApproved;
    if r.action.GIT_COMMIT? || r.action.GIT_PUSH? {
      ReleasedExactly(r, env, profile);
    } else if r.action.RUN_COMMAND? && Given(r.requestedCommand) {
      CommandAuthorisedExactly(r, env, p, profile);
    }
  }

  /** An invocation is cleared exactly when it is authorised, and then under the trusted profile and with the
      resolved provider. */
  lemma ClearedExactly(r: Request, env: Environment)
    ensures Prepare(r, env).Cleared? <==> Authorised(r, env)
    ensures Prepare(r, env).Cleared? ==> Prepare(r, env) == Cleared(env.trustedProfile.value, env.provider.value.id)
  {
    WellFormedExactly(r);
    if env.provider.Some? {
      ServesExactly(r, env.provider.value);
    }
    if env.provider.Some? && env.trustedProfile.Some? && env.policy.Some? {
      ActionAuthorisedExactly(r, env);
    }
    hide WellFormed, ValidRequest, Serves, EligibleProvider, ActionAuthorised, Evaluate, ContextOf;
  }

  /** Nothing runs that is not authorised: not without the policy's leave for the action, an eligible provider,
      the trusted profile, and for a commit or push an unexpired human approval of exactly that release. */
  lemma ExecutionsAuthorised(events: seq<Event>, i: nat)
    requires i < |Run(INIT, events).executions|
    ensures Authorised(Run(INIT, events).executions[i].request, Run(INIT, events).executions[i].env)
  {
    hide Step, KeyOf, Authorised, Prepare;
    RunKeeps(INIT, events);
    var x := Run(INIT, events).executions[i];
    assert GoodExecution(Run(INIT, events).claims, Run(INIT, events).attempts, x);
    ClearedExactly(x.request, x.env);
  }

  /** Where the requested path leads once decoded, resolved against the root and canonicalised. */
  ghost predicate LeadsTo(host: Host, requested: string, policy: Policy, c: Path) {
    Canonical(host.fs, Resolve(Resolve(host.cwd, policy.allowedRoot), Slashes(DecodePercent(requested)))) == Some(c)
  }

  /** Inside the resolved and the canonical root, no denied pattern matches, and no secret; free of links on a
      file system whose answers are those of a file system with links. */
  ghost predicate Confined(host: Host, policy: Policy, c: Path) {
    var root := Resolve(host.cwd, policy.allowedRoot);
    && root <= c && Canonical(host.fs, root).Some? && Canonical(host.fs, root).value <= c
    && (forall k | 0 <= k < |policy.deniedPaths| :: !MatchesDeny(host, Join(c[|root|..], "/"), policy.deniedPaths[k]))
    && !host.isSecret(Render(c))
    && (PathLaws.Posix(host.fs) ==> PathLaws.LinkFree(host.fs, c))
  }

  lemma CanonicalLinkFree(fs: FileSystem, p: Path, c: Path)
    requires Canonical(fs, p) == Some(c) && PathLaws.Posix(fs)
    ensures PathLaws.LinkFree(fs, c)
  {
    hide Canonical, PathLaws.Posix, PathLaws.LinkFree;
    if p == [] {
      PathLaws.CanonicalRoot(fs);
      PathLaws.RootIsLinkFree(fs);
    } else {
      PathLaws.CanonicalIsLinkFree(fs, p);
    }
  }

  lemma FileIsConfined(r: Request, env: Environment, profile: Profile, policy: Policy) returns (c: Path)
    requires FileAuthorised(r, env, profile, policy)
    ensures r.requestedPath.Some? && LeadsTo(env.host, r.requestedPath.value, policy, c) && Confined(env.host, policy, c)
  {
    hide Canonical, Resolve, PathLaws.Posix, PathLaws.LinkFree, MatchesDeny, HomeDenied, Screened, Render;
    var requested := r.requestedPath.value;
    c :| Contained(env.host, requested, policy.allowedRoot, c)
         && Permitted(env.host, PathRequest(profile, READ_FILE, r.requestedPath, env.homeDir, policy), c);
    if PathLaws.Posix(env.host.fs) {
      CanonicalLinkFree(env.host.fs, Resolve(Resolve(env.host.cwd, policy.allowedRoot), Slashes(DecodePercent(requested))), c);
    }
  }

  /** Every file that an execution was let loose on is confined to the root, and only the builder writes. */
  lemma ExecutedPathIsContained(events: seq<Event>, i: nat) returns (c: Path)
    requires i < |Run(INIT, events).executions|
    requires Run(INIT, events).executions[i].request.action in [READ_FILE, WRITE_FILE, CREATE_FILE, DELETE_FILE]
    ensures var x := Run(INIT, events).executions[i];
            && x.env.policy.Some? && x.request.requestedPath.Some?
            && LeadsTo(x.env.host, x.request.requestedPath.value, x.env.policy.value, c)
            && Confined(x.env.host, x.env.policy.value, c)
            && (x.request.action != READ_FILE ==> x.env.trustedProfile == Some(BUILDER))
  {
    hide Run, FileAuthorised, LeadsTo, Confined;
    ExecutionsAuthorised(events, i);
    var x := Run(INIT, events).executions[i];
    c := FileIsConfined(x.request, x.env, x.env.trustedProfile.value, x.env.policy.value);
  }

  // ---- The caller's profile hint has no influence ----

  /** The request with a valid hint replaced by a fixed one. */
  function Erase(r: Request): Request {
    r.(profileHint := if r.profileHint.None? then None else Some(BUILDER))
  }

  function EraseAttempt(t: Attempt): Attempt {
    t.(request := Erase(t.request))
  }

  function EraseExecutions(x: seq<Execution>): seq<Execution> {
    seq(|x|, i requires 0 <= i < |x| => x[i].(request := Erase(x[i].request)))
  }

  function EraseState(s: State): State {
    s.(attempts := map a | a in s.attempts :: EraseAttempt(s.attempts[a]), executions := EraseExecutions(s.executions))
  }

  function EraseEvent(e: Event): Event {
    if e.Begin? then e.(request := Erase(e.request)) else e
  }

  function EraseEvents(events: seq<Event>): seq<Event> {
    seq(|events|, i requires 0 <= i < |events| => EraseEvent(events[i]))
  }

  lemma EraseIsNeutral(r: Request, env: Environment)
    ensures Prepare(Erase(r), env) == Prepare(r, env) && KeyOf(Erase(r)) == KeyOf(r)
    ensures forall p, q :: FingerprintOf(Erase(r), p, q) == FingerprintOf(r, p, q)
  {
    hide Evaluate, LogicalOperationKey, InvocationFingerprint;
    if env.provider.Some? && env.trustedProfile.Some? {
      assert ContextOf(Erase(r), env.provider.value, env.trustedProfile.value, env)
          == ContextOf(r, env.provider.value, env.trustedProfile.value, env);
    }
  }

  lemma EraseReplace(s: State, a: nat, t: Attempt)
    ensures EraseState(s.(attempts := s.attempts[a := t]))
         == EraseState(s).(attempts := EraseState(s).attempts[a := EraseAttempt(t)])
  {
  }

  lemma EraseAppend(x: seq<Execution>, e: Execution)
    ensures EraseExecutions(x + [e]) == EraseExecutions(x) + [e.(request := Erase(e.request))]
  {
  }

  /** What a step does to the rest of the state does not depend on hints. */
  lemma StepErasesTables(s: State, e: Event)
    requires !e.Begin? && e.attempt in s.attempts
    ensures var s', z' := Step(s, e), Step(EraseState(s), e);
            s'.claims == z'.claims && s'.marks == z'.marks && EraseExecutions(s'.executions) == z'.executions
  {
    hide Prepare, KeyOf, FingerprintOf, AfterPreparation, AfterAdapter, InvocationIdUsed, ClaimStateFor;
    var t := s.attempts[e.attempt];
    assert EraseState(s).attempts[e.attempt] == EraseAttempt(t);
    EraseAppend(s.executions, Execution(e.attempt, t.request, t.env));
  }

  ghost predicate AttemptErases(s: State, e: Event)
    requires !e.Begin? && e.attempt in s.attempts
  {
    var s', z' := Step(s, e), Step(EraseState(s), e);
    && e.attempt in s'.attempts && e.attempt in z'.attempts
    && EraseAttempt(s'.attempts[e.attempt]) == z'.attempts[e.attempt]
  }

  lemma StoreStepErases(s: State, e: Event)
    requires (e.Claims? || e.Inspects? || e.Marks?) && e.attempt in s.attempts
    ensures AttemptErases(s, e)
  {
    hide ClaimStateFor, EraseExecutions;
    var t := s.attempts[e.attempt];
    assert EraseState(s).attempts[e.attempt] == EraseAttempt(t);
  }

  lemma StepErasesAttempt(s: State, e: Event)
    requires !e.Begin? && e.attempt in s.attempts
    ensures AttemptErases(s, e)
  {
    if e.Claims? || e.Inspects? || e.Marks? {
      StoreStepErases(s, e);
    } else {
      hide Prepare, KeyOf, FingerprintOf, AfterAdapter, ClaimStep, InspectStep, MarkStep, EraseExecutions;
      var t := s.attempts[e.attempt];
      assert EraseState(s).attempts[e.attempt] == EraseAttempt(t);
      EraseIsNeutral(t.request, t.env);
    }
  }

  /** Erasing hints commutes with every step. */
  lemma StepErases(s: State, e: Event)
    ensures EraseState(Step(s, e)) == Step(EraseState(s), EraseEvent(e))
  {
    if e.Begin? {
      EraseReplace(s, e.attempt, Attempt(e.request, e.env, Fresh, false));
    } else if e.attempt in s.attempts {
      hide Step;
      StepErasesTables(s, e);
      StepErasesAttempt(s, e);
      OnlyThisAttempt(s, e);
      OnlyThisAttempt(EraseState(s), e);
      EraseReplace(s, e.attempt, Step(s, e).attempts[e.attempt]);
    }
  }

  /** A step of attempt `a` changes no other attempt and no request. */
  lemma OnlyThisAttempt(s: State, e: Event)
    requires !e.Begin? && e.attempt in s.attempts
    ensures e.attempt in Step(s, e).attempts
    ensures Step(s, e).attempts == s.attempts[e.attempt := Step(s, e).attempts[e.attempt]]
    ensures Step(s, e).attempts[e.attempt].request == s.attempts[e.attempt].request
  {
    hide Prepare, KeyOf, FingerprintOf;
  }

  lemma {:induction false} RunErases(s: State, events: seq<Event>)
    ensures EraseState(Run(s, events)) == Run(EraseState(s), EraseEvents(events))
    decreases |events|
  {
    hide Step;
    if events == [] {
    } else {
      StepErases(s, events[0]);
      RunErases(Step(s, events[0]), events[1..]);
      assert EraseEvents(events)[1..] == EraseEvents(events[1..]);
    }
  }

  /** Two runs that differ only in valid profile hints take the same decisions in every step: the same
      phases, the same claims, the same marks, and the same adapter calls. */
  lemma HintIsNotAuthority(events: seq<Event>, others: seq<Event>)
    requires EraseEvents(events) == EraseEvents(others)
    ensures var s, z := Run(INIT, events), Run(INIT, others);
            && s.claims == z.claims && s.marks == z.marks
            && EraseExecutions(s.executions) == EraseExecutions(z.executions)
            && s.attempts.Keys == z.attempts.Keys
            && forall a | a in s.attempts :: s.attempts[a].phase == z.attempts[a].phase
  {
    hide Step;
    RunErases(INIT, events);
    RunErases(INIT, others);
    var s, z := Run(INIT, events), Run(INIT, others);
    assert EraseState(s) == EraseState(z);
    assert s.attempts.Keys == EraseState(s).attempts.Keys && z.attempts.Keys == EraseState(z).attempts.Keys;
    assert forall a | a in s.attempts :: EraseState(s).attempts[a].phase == s.attempts[a].phase;
    assert forall a | a in z.attempts :: EraseState(z).attempts[a].phase == z.attempts[a].phase;
  }

  // ---- The protocol does run ----

  const SOME_HOST := Host([], FileSystem(_ => false, _ => None), _ => false, (_, _) => false)

  const SOME_ENV := Environment(
    true, Some(Provider("p", "o", true, true, true, true, None, false, false)), true, Some(BUILDER),
    false, None, None, Some(Policy("/", [], [], None, None, true, false, false)), false, true, true, true, 0, SOME_HOST)

  const SOME_REQUEST := Request("i", "o", "r", "s", "c", "p", Some(REVIEWER), NETWORK_ACCESS, None, None, None, None, None, None, true, true)

  lemma SomeRequestIsCleared()
    ensures Authorised(SOME_REQUEST, SOME_ENV) && Prepare(SOME_REQUEST, SOME_ENV) == Cleared(BUILDER, "p")
    ensures IsConsequential(SOME_REQUEST.action)
  {
  }

  /** One attempt left to run on its own, without faults. */
  function Undisturbed(a: nat, r: Request, env: Environment): seq<Event> {
    [Begin(a, r, env), Prepares(a), Claims(a, NoFault), Executes(a)]
  }

  lemma RunFour(s: State, a: Event, b: Event, c: Event, d: Event)
    ensures Run(s, [a, b, c, d]) == Step(Step(Step(Step(s, a), b), c), d)
  {
    hide Step;
    assert [a, b, c, d][1..] == [b, c, d] && [b, c, d][1..] == [c, d] && [c, d][1..] == [d];
    var s1 := Step(s, a);
    var s2 := Step(s1, b);
    var s3 := Step(s2, c);
    assert Run(s, [a, b, c, d]) == Run(s1, [b, c, d]);
    assert Run(s1, [b, c, d]) == Run(s2, [c, d]);
    assert Run(s2, [c, d]) == Run(s3, [d]);
    assert Run(s3, [d]) == Step(s3, d);
  }

  /** A cleared consequential request reaches the adapter exactly when its operation is unclaimed and
      its invocation id is new, and then the claim names it; otherwise nothing runs and nothing is claimed. */
  lemma ExecutesExactlyWhenUnclaimed(s: State, a: nat, r: Request, env: Environment)
    requires a !in s.attempts && IsConsequential(r.action) && Authorised(r, env)
    ensures var z := Run(s, Undisturbed(a, r, env));
            if KeyOf(r) !in s.claims && forall k | k in s.claims :: s.claims[k].invocationId != r.invocationId
            then z.executions == s.executions + [Execution(a, r, env)]
                 && z.claims == s.claims[KeyOf(r) := Claim(r.invocationId,
                      FingerprintOf(r, env.provider.value.id, env.trustedProfile.value), IN_PROGRESS, a)]
            else z.executions == s.executions && z.claims == s.claims
  {
    ClearedExactly(r, env);
    hide Prepare, KeyOf, FingerprintOf, Authorised;
    RunFour(s, Begin(a, r, env), Prepares(a), Claims(a, NoFault), Executes(a));
    var s1 := Step(s, Begin(a, r, env));
    var s2 := Step(s1, Prepares(a));
    assert s2.attempts[a].phase.Claiming? && s2.claims == s.claims && s2.executions == s.executions;
    var s3 := Step(s2, Claims(a, NoFault));
    assert s3 == ClaimStep(s2, a, NoFault);
  }

  /** An authorised read reaches the adapter without a claim. */
  lemma ReadsExecute(s: State, a: nat, r: Request, env: Environment)
    requires a !in s.attempts && !IsConsequential(r.action) && Authorised(r, env)
    ensures var z := Run(s, Undisturbed(a, r, env));
            z.executions == s.executions + [Execution(a, r, env)] && z.claims == s.claims
  {
    ClearedExactly(r, env);
    hide Prepare, KeyOf, FingerprintOf, Authorised, ClaimStep;
    RunFour(s, Begin(a, r, env), Prepares(a), Claims(a, NoFault), Executes(a));
    var s1 := Step(s, Begin(a, r, env));
    var s2 := Step(s1, Prepares(a));
    assert s2.attempts[a].phase == Ready(None) && s2.claims == s.claims && s2.executions == s.executions;
  }

  /** An attempt that may not claim is told why: another operation holds its invocation id and the claim of
      its own operation does not, or the operation itself is claimed. */
  lemma RejectionExactly(s: State, a: nat, r: Request, env: Environment)
    requires a !in s.attempts && IsConsequential(r.action) && Authorised(r, env)
    requires KeyOf(r) in s.claims || exists k | k in s.claims :: s.claims[k].invocationId == r.invocationId
    ensures var z := Run(s, [Begin(a, r, env), Prepares(a), Claims(a, NoFault), Inspects(a, false)]);
            && z.claims == s.claims && z.executions == s.executions && a in z.attempts
            && z.attempts[a].phase in [Ended(Duplicate), Ended(Conflict)]
            && (z.attempts[a].phase == Ended(Conflict) <==>
                  && !(KeyOf(r) in s.claims && s.claims[KeyOf(r)].invocationId == r.invocationId)
                  && exists k | k in s.claims :: s.claims[k].invocationId == r.invocationId)
  {
    ClearedExactly(r, env);
    hide Prepare, KeyOf, FingerprintOf, Authorised;
    RunFour(s, Begin(a, r, env), Prepares(a), Claims(a, NoFault), Inspects(a, false));
    var s1 := Step(s, Begin(a, r, env));
    var s2 := Step(s1, Prepares(a));
    assert s2.attempts[a].phase.Claiming? && s2.attempts[a].phase.key == KeyOf(r) && s2.claims == s.claims && s2.executions == s.executions;
    assert s2.attempts[a].request == r;
    var s3 := Step(s2, Claims(a, NoFault));
    assert s3 == ClaimStep(s2, a, NoFault) && s3 == Goto(s2, a, Inspecting(KeyOf(r)));
    assert Step(s3, Inspects(a, false)) == InspectStep(s3, a, false);
  }

  /** How the adapter's answer, or its absence, ends the attempt. */
  predicate Ends(e: Event, status: AgentStatus) {
    match e
    case AdapterReturns(_, told) =>
      if told in [SUCCEEDED, FAILED, TIMED_OUT, CANCELLED, QUOTA_BLOCKED] then status == told else status == FAILED
    case AdapterThrows(_) => status == FAILED
    case TimesOut(_) => status == TIMED_OUT
    case _ => false
  }

  /** An execution that is left to finish ends with the adapter's answer, and its claim is written once with
      the state that explains this ending; nothing else is claimed, executed or marked. */
  lemma CompletesTruthfully(s: State, e: Event, status: AgentStatus, key: string)
    requires e.attempt in s.attempts && s.attempts[e.attempt].phase == Executing(Some(key)) && Ends(e, status)
    requires key in s.claims && s.claims[key].state.IN_PROGRESS?
    requires s.claims[key].invocationId == s.attempts[e.attempt].request.invocationId
    ensures var z := Run(s, [e, Marks(e.attempt, NoFault)]);
            && z.executions == s.executions && e.attempt in z.attempts
            && z.attempts[e.attempt].phase == Ended(Finished(status))
            && key in z.claims && Explains(z.claims[key].state, status)
            && z.claims == s.claims[key := s.claims[key].(state := z.claims[key].state)]
            && z.marks == s.marks + [Mark(key, e.attempt, z.claims[key].state)]
  {
    hide Prepare, KeyOf, FingerprintOf, AfterPreparation, ClaimStep, InspectStep;
    RunTwo(s, e, Marks(e.attempt, NoFault));
    var s1 := Step(s, e);
    assert s1.attempts[e.attempt].phase == Marking(key, status);
    assert s1.claims == s.claims && s1.marks == s.marks && s1.executions == s.executions;
    assert Step(s1, Marks(e.attempt, NoFault)) == MarkStep(s1, e.attempt, NoFault);
  }

  lemma RunTwo(s: State, a: Event, b: Event)
    ensures Run(s, [a, b]) == Step(Step(s, a), b)
  {
    hide Step;
    assert [a, b][1..] == [b];
    assert Run(Step(s, a), [b]) == Step(Step(s, a), b);
  }
}
