/** The policy decision for one requested action, and the human gate that release actions need. */
module ExecutionPolicy {
  import opened Strings
  import opened Governance
  import opened CommandPolicy
  import opened PathNames
  import opened PathPolicy

  datatype Context = Context(
    profile: Profile, action: Action, requestedPath: Option<string>, requestedCommand: Option<string>,
    homeDir: Option<string>, policy: Option<Policy>, gateApproved: bool)

  datatype Decision = Decision(allowed: bool, reasonCode: ReasonCode)

  const GRANTED := Decision(true, POLICY_ALLOWED)

  function Evaluate(host: Host, ctx: Context): Decision {
    if ctx.policy.None? then Decision(false, POLICY_MISSING)
    else
      var policy := ctx.policy.value;
      match ctx.action
      case RUN_COMMAND =>
        if ctx.requestedCommand.None? || ctx.requestedCommand.value == [] then Decision(false, COMMAND_NOT_ALLOWED)
        else
          var v := Classify(ctx.requestedCommand.value, ctx.profile, policy);
          Decision(v.allowed, v.reasonCode)
      case READ_SECRET => Decision(false, SECRET_ACCESS_DENIED)
      case NETWORK_ACCESS => if policy.allowNetwork then GRANTED else Decision(false, NETWORK_ACCESS_DENIED)
      case GIT_READ => GRANTED
      case GIT_COMMIT =>
        if ctx.profile.RELEASE_AUTHORITY? && policy.allowGitCommit && ctx.gateApproved then GRANTED
        else Decision(false, GIT_COMMIT_DENIED)
      case GIT_PUSH =>
        if ctx.profile.RELEASE_AUTHORITY? && policy.allowGitPush && ctx.gateApproved then GRANTED
        else Decision(false, GIT_PUSH_DENIED)
      case GIT_MERGE => Decision(false, GIT_MERGE_DENIED)
      case GIT_REBASE => Decision(false, GIT_REBASE_DENIED)
      case GIT_BRANCH_DELETE => Decision(false, GIT_BRANCH_DELETE_DENIED)
      case REMOTE_REF_DELETE => Decision(false, REMOTE_REF_DELETE_DENIED)
      case _ =>
        var d := EvaluatePath(host, PathRequest(ctx.profile, ctx.action, ctx.requestedPath, ctx.homeDir, policy));
        Decision(d.allowed, d.reasonCode)
  }

  // ---- The human gate ----

  datatype Binding = Binding(
    organizationId: string, workflowRunId: string, workflowStepRunId: string, capabilityCode: string,
    providerId: Option<string>, inputReference: Option<string>, requestedAction: Option<Action>,
    artifactReference: Option<string>, expiresAt: Option<int>)

  datatype GateContext = GateContext(
    organizationId: string, workflowRunId: string, workflowStepRunId: string, capabilityCode: string,
    providerId: string, inputReference: Option<string>, action: Action)

  predicate Given(s: Option<string>) {
    s.Some? && s.value != []
  }

  /** Whether a resolved binding approves the context at time `now`. The invocation carries no
      authoritative artifact reference, so an artifact-bound approval never does. */
  predicate GateApproves(binding: Option<Binding>, ctx: GateContext, now: int) {
    binding.Some?
    && var b := binding.value;
       && b.organizationId == ctx.organizationId && b.workflowRunId == ctx.workflowRunId
       && b.workflowStepRunId == ctx.workflowStepRunId && b.capabilityCode == ctx.capabilityCode
       && (Given(b.providerId) ==> b.providerId.value == ctx.providerId)
       && (Given(b.inputReference) ==> b.inputReference == ctx.inputReference)
       && (match b.requestedAction {
             case None => !ctx.action.GIT_COMMIT? && !ctx.action.GIT_PUSH?
             case Some(a) => a == ctx.action
           })
       && b.artifactReference.None?
       && (b.expiresAt.Some? ==> b.expiresAt.value >= now)
  }

  /** What a release action needs, whatever the policy says: the release authority profile, and an
      unexpired approval that names exactly this action, was given for the same context, and is not bound
      to another provider or input or to an artifact. */
  predicate ReleaseAuthorised(profile: Profile, binding: Option<Binding>, ctx: GateContext, now: int) {
    && profile.RELEASE_AUTHORITY? && binding.Some?
    && binding.value.requestedAction == Some(ctx.action)
    && binding.value.organizationId == ctx.organizationId && binding.value.workflowRunId == ctx.workflowRunId
    && binding.value.workflowStepRunId == ctx.workflowStepRunId && binding.value.capabilityCode == ctx.capabilityCode
    && binding.value.providerId in [None, Some(""), Some(ctx.providerId)]
    && binding.value.inputReference in [None, Some(""), ctx.inputReference]
    && binding.value.artifactReference.None?
    && (binding.value.expiresAt.Some? ==> now <= binding.value.expiresAt.value)
  }

  // ---- One condition per action ----

  /** What the policy, the profile and the gate must give for the action. */
  ghost predicate Allows(host: Host, ctx: Context, policy: Policy) {
    match ctx.action
    case RUN_COMMAND =>
      Given(ctx.requestedCommand) && CommandCleared(ctx.requestedCommand.value, ctx.profile, policy)
    case NETWORK_ACCESS => policy.allowNetwork
    case GIT_READ => true
    case GIT_COMMIT => ctx.profile == RELEASE_AUTHORITY && policy.allowGitCommit && ctx.gateApproved
    case GIT_PUSH => ctx.profile == RELEASE_AUTHORITY && policy.allowGitPush && ctx.gateApproved
    case READ_FILE => PathCleared(host, ctx, policy)
    case WRITE_FILE => PathCleared(host, ctx, policy) && ctx.profile == BUILDER
    case CREATE_FILE => PathCleared(host, ctx, policy) && ctx.profile == BUILDER
    case DELETE_FILE => PathCleared(host, ctx, policy) && ctx.profile == BUILDER
    case _ => false
  }

  /** Some path is given, and what it stands for is inside the root and neither private, secret nor denied. */
  ghost predicate PathCleared(host: Host, ctx: Context, policy: Policy) {
    && Given(ctx.requestedPath)
    && exists c: Path ::
         && Contained(host, ctx.requestedPath.value, policy.allowedRoot, c)
         && Permitted(host, PathRequest(ctx.profile, READ_FILE, ctx.requestedPath, ctx.homeDir, policy), c)
  }

  lemma PathDecided(host: Host, ctx: Context, policy: Policy)
    ensures EvaluatePath(host, PathRequest(ctx.profile, ctx.action, ctx.requestedPath, ctx.homeDir, policy)).allowed <==>
              PathCleared(host, ctx, policy) && (ctx.action == READ_FILE || ctx.profile == BUILDER)
  {
    hide Contained, EvaluatePath;
    PathDecisionExactly(host, PathRequest(ctx.profile, ctx.action, ctx.requestedPath, ctx.homeDir, policy));
    hide MatchesDeny, HomeDenied, Render, Resolve;
  }

  /** The reason a refusal gives, where neither a command nor a path is in question. */
  function RefusalOf(action: Action): Option<ReasonCode> {
    match action
    case READ_SECRET => Some(SECRET_ACCESS_DENIED)
    case NETWORK_ACCESS => Some(NETWORK_ACCESS_DENIED)
    case GIT_COMMIT => Some(GIT_COMMIT_DENIED)
    case GIT_PUSH => Some(GIT_PUSH_DENIED)
    case GIT_MERGE => Some(GIT_MERGE_DENIED)
    case GIT_REBASE => Some(GIT_REBASE_DENIED)
    case GIT_BRANCH_DELETE => Some(GIT_BRANCH_DELETE_DENIED)
    case REMOTE_REF_DELETE => Some(REMOTE_REF_DELETE_DENIED)
    case _ => None
  }

  /** The decision, action by action: allowed exactly when a policy is there and gives what the action needs,
      and otherwise refused for the reason that belongs to the action. */
  lemma DecisionExactly(host: Host, ctx: Context)
    ensures Evaluate(host, ctx).allowed <==> ctx.policy.Some? && Allows(host, ctx, ctx.policy.value)
    ensures ctx.policy.None? ==> Evaluate(host, ctx).reasonCode == POLICY_MISSING
    ensures ctx.policy.Some? && !Evaluate(host, ctx).allowed && RefusalOf(ctx.action).Some? ==>
              Evaluate(host, ctx).reasonCode == RefusalOf(ctx.action).value
  {
    hide Classify, CommandCleared, EvaluatePath, PathCleared;
    if ctx.policy.Some? {
      PathDecided(host, ctx, ctx.policy.value);
      if Given(ctx.requestedCommand) {
        CommandDecidedExactly(ctx.requestedCommand.value, ctx.profile, ctx.policy.value);
      }
    }
  }
}
