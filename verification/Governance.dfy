/** The vocabulary shared by policy, invocation and identity keys. */
module Governance {

  datatype Profile = BUILDER | REVIEWER | ORCHESTRATOR | RELEASE_AUTHORITY

  datatype Action =
    | READ_FILE | WRITE_FILE | CREATE_FILE | DELETE_FILE
    | RUN_COMMAND | NETWORK_ACCESS | READ_SECRET
    | GIT_READ | GIT_COMMIT | GIT_PUSH | GIT_MERGE | GIT_REBASE | GIT_BRANCH_DELETE | REMOTE_REF_DELETE

  datatype AgentStatus =
    | QUEUED | STARTING | RUNNING | SUCCEEDED | FAILED | TIMED_OUT | CANCELLED | POLICY_BLOCKED | QUOTA_BLOCKED

  datatype ReasonCode =
    | POLICY_ALLOWED | POLICY_MISSING
    | PATH_OUTSIDE_ALLOWED_ROOT | PATH_EXPLICITLY_DENIED | PATH_TRAVERSAL_REJECTED | HOME_ACCESS_DENIED
    | SECRET_ACCESS_DENIED | REVIEWER_WRITE_DENIED | COMMAND_NOT_ALLOWED
    | GIT_COMMIT_DENIED | GIT_PUSH_DENIED | GIT_MERGE_DENIED | GIT_REBASE_DENIED | GIT_BRANCH_DELETE_DENIED
    | REMOTE_REF_DELETE_DENIED | NETWORK_ACCESS_DENIED

  predicate IsFileMutation(a: Action) {
    a.WRITE_FILE? || a.CREATE_FILE? || a.DELETE_FILE?
  }

  predicate IsConsequential(a: Action) {
    IsFileMutation(a) || a.RUN_COMMAND? || a.NETWORK_ACCESS? || a.GIT_COMMIT? || a.GIT_PUSH?
  }

  function ActionName(a: Action): string {
    match a
    case READ_FILE => "READ_FILE"
    case WRITE_FILE => "WRITE_FILE"
    case CREATE_FILE => "CREATE_FILE"
    case DELETE_FILE => "DELETE_FILE"
    case RUN_COMMAND => "RUN_COMMAND"
    case NETWORK_ACCESS => "NETWORK_ACCESS"
    case READ_SECRET => "READ_SECRET"
    case GIT_READ => "GIT_READ"
    case GIT_COMMIT => "GIT_COMMIT"
    case GIT_PUSH => "GIT_PUSH"
    case GIT_MERGE => "GIT_MERGE"
    case GIT_REBASE => "GIT_REBASE"
    case GIT_BRANCH_DELETE => "GIT_BRANCH_DELETE"
    case REMOTE_REF_DELETE => "REMOTE_REF_DELETE"
  }

  function ProfileName(p: Profile): string {
    match p
    case BUILDER => "BUILDER"
    case REVIEWER => "REVIEWER"
    case ORCHESTRATOR => "ORCHESTRATOR"
    case RELEASE_AUTHORITY => "RELEASE_AUTHORITY"
  }

  /** The names of two actions agree in length and in two probe characters only for the same action. */
  lemma ActionNameInjective(a: Action, b: Action)
    requires ActionName(a) == ActionName(b)
    ensures a == b
  {
  }

  lemma ProfileNameInjective(p: Profile, q: Profile)
    requires ProfileName(p) == ProfileName(q)
    ensures p == q
  {
  }
}
