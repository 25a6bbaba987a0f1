/** Single-use approvals for code builds: the approval table, its conditional updates, and the dispatch
    that must claim an approval before it may invoke a provider. Reads and writes of one call are
    separate steps, so calls interleave freely. SHA-256 is taken as injective: a hash is its preimage. */
module Approvals {
  import opened Strings

  // ---- Data ----

  const CODE_BUILD := "CODE_BUILD"
  const REPOSITORY := "lavolpeofficial/vito-platform"

  datatype Scope = Scope(missionId: string, repository: string, branch: string)

  datatype Target = Target(
    organizationId: string, scope: Scope, workflowRunId: string, workflowStepRunId: string,
    providerId: string, providerCode: string, commandAlias: string)

  datatype ConsumptionHash = PublicHash(approvalId: nat, scope: Scope) | DispatchHash(approvalId: nat, scope: Scope, target: Target)

  datatype Use = Use(at: int, userId: string, requestKey: string, hash: ConsumptionHash)

  /** A row of the approval table. */
  datatype Row = Row(
    organizationId: string, scope: Scope, requestKey: string, approvedBy: string, expiresAt: int,
    revokedAt: Option<int>, use: Option<Use>)

  /** What the user lookup of a call finds. */
  datatype User = User(machine: bool, bridge: bool, manager: bool)

  predicate Human(u: Option<User>) { u.Some? && !u.value.machine && u.value.manager }
  predicate Machine(u: Option<User>) { u.Some? && u.value.machine }
  predicate Bridge(u: Option<User>) { Machine(u) && u.value.bridge }

  /** The arguments of a consumption. */
  datatype Demand = Demand(organizationId: string, userId: string, id: nat, scope: Scope, requestKey: string)

  datatype Phase =
    | Revoking(id: nat)
    | Consuming(demand: Demand)
    | Dispatching(capability: string, demand: Demand, target: Target, user: Option<User>)
    | Cleared(capability: string, approval: Option<nat>, target: Target)
    | Returned(replay: Option<nat>)
    | Over

  /** A claim that took effect: the row it found, the use it wrote, and the call that made it. */
  datatype Claim = Claim(call: nat, id: nat, before: Row, use: Use)

  /** One provider invocation. */
  datatype Invocation = Invocation(call: nat, capability: string, approval: Option<nat>, target: Target)

  datatype State = State(rows: map<nat, Row>, calls: map<nat, Phase>, claims: seq<Claim>, invocations: seq<Invocation>)

  const INIT := State(map[], map[], [], [])

  /** A transaction commits, aborts, or commits while its caller sees an error. */
  datatype Fault = NoFault | Aborts | CommitsAndThrows

  datatype Event =
    | Creates(id: nat, row: Row, user: Option<User>, now: int)
    | RevokeReads(call: nat, organizationId: string, id: nat, user: Option<User>)
    | RevokeWrites(call: nat, now: int, fault: Fault)
    | ConsumeReads(call: nat, demand: Demand, user: Option<User>, now: int)
    | ConsumeWrites(call: nat, now: int, fault: Fault)
    | DispatchBegins(call: nat, capability: string, evidence: Option<Demand>, target: Target, user: Option<User>)
    | DispatchClaims(call: nat, now: int, fault: Fault)
    | Invokes(call: nat)
    | Crashes(call: nat)

  // ---- Guards ----

  predicate LowerOrDigit(c: char) { 'a' <= c <= 'z' || '0' <= c <= '9' }

  predicate FeatureBranch(b: string) {
    && StartsWith(b, "feat/") && |b| > 5 && LowerOrDigit(b[5])
    && forall i | 6 <= i < |b| :: LowerOrDigit(b[i]) || b[i] == '-'
  }

  predicate ValidProviderCode(p: string) {
    && 1 <= |p| <= 128
    && forall i | 0 <= i < |p| :: LowerOrDigit(p[i]) || 'A' <= p[i] <= 'Z' || p[i] in ['.', '_', '-']
  }

  predicate ValidAlias(a: string) {
    && 1 <= |a| <= 64 && LowerOrDigit(a[0])
    && forall i | 1 <= i < |a| :: LowerOrDigit(a[i]) || a[i] in ['.', '_', '-']
  }

  predicate IsExecutionTarget(t: Target) {
    && t.organizationId != [] && t.scope.missionId != [] && t.workflowRunId != [] && t.workflowStepRunId != []
    && t.scope.repository == REPOSITORY && FeatureBranch(t.scope.branch)
    && t.providerId != [] && ValidProviderCode(t.providerCode) && ValidAlias(t.commandAlias)
  }

  predicate EvidenceComplete(d: Demand) {
    && d.scope.repository == REPOSITORY && FeatureBranch(d.scope.branch)
    && d.scope.missionId != [] && d.requestKey != [] && d.userId != []
  }

  /** The unique index on organization and approval request key. */
  predicate RequestKeyTaken(rows: map<nat, Row>, organizationId: string, key: string) {
    exists id | id in rows :: rows[id].organizationId == organizationId && rows[id].requestKey == key
  }

  /** The unique index on organization and consumption request key. */
  predicate UseKeyTaken(rows: map<nat, Row>, organizationId: string, key: string) {
    exists id | id in rows :: rows[id].organizationId == organizationId && rows[id].use.Some? && rows[id].use.value.requestKey == key
  }

  /** The condition under which the conditional update of both consume operations matches a row. */
  predicate Available(rows: map<nat, Row>, d: Demand, now: int) {
    && d.id in rows && rows[d.id].organizationId == d.organizationId
    && rows[d.id].use.None? && rows[d.id].revokedAt.None? && now < rows[d.id].expiresAt
  }

  // ---- Steps ----

  function To(s: State, call: nat, phase: Phase): State {
    s.(calls := s.calls[call := phase])
  }

  /** Writes a use into an available row; the unique index may still refuse it. */
  function Claimed(s: State, call: nat, d: Demand, use: Use): State
    requires d.id in s.rows
  {
    s.(rows := s.rows[d.id := s.rows[d.id].(use := Some(use))], claims := s.claims + [Claim(call, d.id, s.rows[d.id], use)])
  }

  function RevokeRead(s: State, e: Event): State
    requires e.RevokeReads?
  {
    if !Human(e.user) || e.id !in s.rows || s.rows[e.id].organizationId != e.organizationId then To(s, e.call, Over)
    else if s.rows[e.id].revokedAt.Some? || s.rows[e.id].use.Some? then To(s, e.call, Over)
    else To(s, e.call, Revoking(e.id))
  }

  /** The update names only the row's id: it repeats none of the conditions that were read. */
  function RevokeWrite(s: State, call: nat, now: int, fault: Fault): State
    requires call in s.calls && s.calls[call].Revoking?
  {
    var id := s.calls[call].id;
    var over := To(s, call, Over);
    if fault.Aborts? || id !in s.rows then over
    else over.(rows := s.rows[id := s.rows[id].(revokedAt := Some(now))])
  }

  function ConsumeRead(s: State, e: Event): State
    requires e.ConsumeReads?
  {
    var d := e.demand;
    if !Machine(e.user) || d.id !in s.rows || s.rows[d.id].organizationId != d.organizationId then To(s, e.call, Over)
    else
      var row := s.rows[d.id];
      if row.use.Some? then
        To(s, e.call, if row.use.value.requestKey == d.requestKey && row.use.value.hash == PublicHash(d.id, d.scope)
                         && row.use.value.userId == d.userId then Returned(Some(d.id)) else Over)
      else if row.revokedAt.Some? || row.expiresAt <= e.now || row.scope != d.scope then To(s, e.call, Over)
      else To(s, e.call, Consuming(d))
  }

  function ConsumeWrite(s: State, call: nat, now: int, fault: Fault): State
    requires call in s.calls && s.calls[call].Consuming?
  {
    var d := s.calls[call].demand;
    if fault.Aborts? || !Available(s.rows, d, now) || UseKeyTaken(s.rows, d.organizationId, d.requestKey) then To(s, call, Over)
    else To(Claimed(s, call, d, Use(now, d.userId, d.requestKey, PublicHash(d.id, d.scope))), call,
            if fault.NoFault? then Returned(None) else Over)
  }

  /** Only a code build needs evidence; its target is built from that evidence. */
  function DispatchBegin(s: State, e: Event): State
    requires e.DispatchBegins?
  {
    if e.capability != CODE_BUILD then To(s, e.call, Cleared(e.capability, None, e.target))
    else if e.evidence.None? || !EvidenceComplete(e.evidence.value) then To(s, e.call, Over)
    else
      var d := e.evidence.value;
      var target := e.target.(organizationId := d.organizationId, scope := d.scope);
      To(s, e.call, if IsExecutionTarget(target) then Dispatching(e.capability, d, target, e.user) else Over)
  }

  function DispatchClaim(s: State, call: nat, now: int, fault: Fault): State
    requires call in s.calls && s.calls[call].Dispatching?
  {
    var c := s.calls[call];
    var d := c.demand;
    if fault.Aborts? || !Bridge(c.user) || !Available(s.rows, d, now) || s.rows[d.id].scope != d.scope
       || UseKeyTaken(s.rows, d.organizationId, d.requestKey)
    then To(s, call, Over)
    else To(Claimed(s, call, d, Use(now, d.userId, d.requestKey, DispatchHash(d.id, d.scope, c.target))), call,
            if fault.NoFault? then Cleared(c.capability, Some(d.id), c.target) else Over)
  }

  function Step(s: State, e: Event): State {
    match e
    case Creates(id, row, user, now) =>
      if id in s.rows || row.expiresAt <= now || !Human(user) || RequestKeyTaken(s.rows, row.organizationId, row.requestKey) then s
      else s.(rows := s.rows[id := row.(revokedAt := None, use := None)])
    case RevokeReads(call, _, _, _) => if call in s.calls then s else RevokeRead(s, e)
    case RevokeWrites(call, now, fault) => if call in s.calls && s.calls[call].Revoking? then RevokeWrite(s, call, now, fault) else s
    case ConsumeReads(call, _, _, _) => if call in s.calls then s else ConsumeRead(s, e)
    case ConsumeWrites(call, now, fault) => if call in s.calls && s.calls[call].Consuming? then ConsumeWrite(s, call, now, fault) else s
    case DispatchBegins(call, _, _, _, _) => if call in s.calls then s else DispatchBegin(s, e)
    case DispatchClaims(call, now, fault) => if call in s.calls && s.calls[call].Dispatching? then DispatchClaim(s, call, now, fault) else s
    case Invokes(call) =>
      if call in s.calls && s.calls[call].Cleared? then
        To(s, call, Over).(invocations := s.invocations + [Invocation(call, s.calls[call].capability, s.calls[call].approval, s.calls[call].target)])
      else s
    case Crashes(call) => if call in s.calls then To(s, call, Over) else s
  }

  function Run(s: State, events: seq<Event>): State
    decreases |events|
  {
    if events == [] then s else Run(Step(s, events[0]), events[1..])
  }

  // ---- The invariant ----

  /** The claim found an unused, unrevoked, unexpired row and what it wrote is still there. */
  ghost predicate GoodClaim(rows: map<nat, Row>, c: Claim) {
    && c.id in rows && rows[c.id].use == Some(c.use)
    && c.before.use.None? && c.before.revokedAt.None? && c.use.at < c.before.expiresAt
    && rows[c.id] == c.before.(use := Some(c.use), revokedAt := rows[c.id].revokedAt)
    && c.use.hash.approvalId == c.id
  }

  /** Some claim of this call authorises the target. */
  ghost predicate AuthorisedBy(c: Claim, call: nat, id: nat, target: Target) {
    && c.call == call && c.id == id && c.use.hash == DispatchHash(id, c.before.scope, target)
    && c.before.scope == target.scope && c.before.organizationId == target.organizationId
    && IsExecutionTarget(target)
  }

  ghost predicate Authorised(claims: seq<Claim>, call: nat, capability: string, approval: Option<nat>, target: Target) {
    if capability == CODE_BUILD then
      approval.Some? && exists k :: 0 <= k < |claims| && AuthorisedBy(claims[k], call, approval.value, target)
    else approval.None?
  }

  ghost predicate GoodPhase(s: State, call: nat, p: Phase) {
    match p
    case Cleared(capability, approval, target) => Authorised(s.claims, call, capability, approval, target) && Uninvoked(s, call)
    case Dispatching(capability, d, target, _) =>
      && capability == CODE_BUILD && IsExecutionTarget(target) && target.organizationId == d.organizationId && target.scope == d.scope
      && Uninvoked(s, call)
    case Over => true
    case _ => Uninvoked(s, call)
  }

  ghost predicate Uninvoked(s: State, call: nat) {
    forall i | 0 <= i < |s.invocations| :: s.invocations[i].call != call
  }

  ghost predicate GoodInvocation(s: State, v: Invocation) {
    Authorised(s.claims, v.call, v.capability, v.approval, v.target) && v.call in s.calls
  }

  ghost predicate UseKeysUnique(rows: map<nat, Row>) {
    forall x, y | x in rows && y in rows && rows[x].use.Some? && rows[y].use.Some?
                  && rows[x].organizationId == rows[y].organizationId
                  && rows[x].use.value.requestKey == rows[y].use.value.requestKey :: x == y
  }

  /** Every used row is used by a logged claim. */
  ghost predicate UsesLogged(s: State) {
    forall id | id in s.rows && s.rows[id].use.Some? :: exists k :: 0 <= k < |s.claims| && s.claims[k].id == id
  }

  ghost predicate Inv(s: State) {
    && (forall k | 0 <= k < |s.claims| :: GoodClaim(s.rows, s.claims[k]))
    && (forall j, k | 0 <= j < |s.claims| && 0 <= k < |s.claims| && s.claims[j].id == s.claims[k].id :: j == k)
    && (forall c | c in s.calls :: GoodPhase(s, c, s.calls[c]))
    && (forall i | 0 <= i < |s.invocations| :: GoodInvocation(s, s.invocations[i]))
    && (forall i, j | 0 <= i < |s.invocations| && 0 <= j < |s.invocations| && s.invocations[i].call == s.invocations[j].call :: i == j)
    && UseKeysUnique(s.rows) && UsesLogged(s)
  }

  /** Rows are never removed, never re-scoped, never un-revoked, and a use is never changed. */
  ghost predicate RowsKept(before: map<nat, Row>, after: map<nat, Row>) {
    forall id | id in before ::
      && id in after
      && after[id] == before[id].(revokedAt := after[id].revokedAt, use := after[id].use)
      && (before[id].revokedAt.Some? ==> after[id].revokedAt.Some? && after[id].use == before[id].use)
      && (before[id].use.Some? ==> after[id].use == before[id].use)
  }

  lemma PhaseKeeps(s: State, call: nat, p: Phase)
    requires Inv(s) && GoodPhase(s, call, p)
    ensures Inv(To(s, call, p))
  {
  }

  lemma NewCallUninvoked(s: State, call: nat)
    requires Inv(s) && call !in s.calls
    ensures Uninvoked(s, call)
  {
  }

  lemma ClaimedTable(rows: map<nat, Row>, d: Demand, use: Use)
    requires UseKeysUnique(rows) && Available(rows, d, use.at) && !UseKeyTaken(rows, d.organizationId, d.requestKey)
    requires use.requestKey == d.requestKey
    ensures var z := rows[d.id := rows[d.id].(use := Some(use))]; UseKeysUnique(z) && RowsKept(rows, z)
  {
  }

  lemma ClaimedLog(s: State, call: nat, d: Demand, use: Use)
    requires UsesLogged(s) && d.id in s.rows
    ensures UsesLogged(Claimed(s, call, d, use))
  {
    var z := Claimed(s, call, d, use);
    forall id | id in z.rows && z.rows[id].use.Some?
      ensures exists k :: 0 <= k < |z.claims| && z.claims[k].id == id
    {
      if id == d.id {
        assert z.claims[|s.claims|].id == id;
      } else {
        var k :| 0 <= k < |s.claims| && s.claims[k].id == id;
        assert z.claims[k].id == id;
      }
    }
  }

  lemma ClaimedRows(s: State, call: nat, d: Demand, use: Use)
    requires Inv(s) && Available(s.rows, d, use.at) && !UseKeyTaken(s.rows, d.organizationId, d.requestKey)
    requires use.requestKey == d.requestKey && use.hash.approvalId == d.id
    ensures var z := Claimed(s, call, d, use);
            && (forall k | 0 <= k < |z.claims| :: GoodClaim(z.rows, z.claims[k]))
            && (forall j, k | 0 <= j < |z.claims| && 0 <= k < |z.claims| && z.claims[j].id == z.claims[k].id :: j == k)
            && UseKeysUnique(z.rows) && UsesLogged(z) && RowsKept(s.rows, z.rows)
  {
    ClaimedTable(s.rows, d, use);
    ClaimedLog(s, call, d, use);
    hide GoodPhase, GoodInvocation, UseKeysUnique, UsesLogged, RowsKept, UseKeyTaken;
    var z := Claimed(s, call, d, use);
    forall k | 0 <= k < |s.claims| ensures s.claims[k].id != d.id && GoodClaim(z.rows, z.claims[k]) {
      assert GoodClaim(s.rows, s.claims[k]);
    }
  }

  lemma MoreClaims(claims: seq<Claim>, c: Claim, call: nat, capability: string, approval: Option<nat>, target: Target)
    requires Authorised(claims, call, capability, approval, target)
    ensures Authorised(claims + [c], call, capability, approval, target)
  {
    if capability == CODE_BUILD {
      var k :| 0 <= k < |claims| && AuthorisedBy(claims[k], call, approval.value, target);
      assert AuthorisedBy((claims + [c])[k], call, approval.value, target);
    }
  }

  lemma ClaimKeeps(s: State, call: nat, d: Demand, use: Use)
    requires Inv(s) && Available(s.rows, d, use.at) && !UseKeyTaken(s.rows, d.organizationId, d.requestKey)
    requires use.requestKey == d.requestKey && use.hash.approvalId == d.id
    ensures Inv(Claimed(s, call, d, use)) && RowsKept(s.rows, Claimed(s, call, d, use).rows)
  {
    ClaimedRows(s, call, d, use);
    var z := Claimed(s, call, d, use);
    var c := Claim(call, d.id, s.rows[d.id], use);
    forall i | 0 <= i < |z.invocations| ensures GoodInvocation(z, z.invocations[i]) {
      var v := z.invocations[i];
      MoreClaims(s.claims, c, v.call, v.capability, v.approval, v.target);
    }
    forall x | x in z.calls ensures GoodPhase(z, x, z.calls[x]) {
      assert GoodPhase(s, x, s.calls[x]);
      if s.calls[x].Cleared? {
        MoreClaims(s.claims, c, x, s.calls[x].capability, s.calls[x].approval, s.calls[x].target);
      }
    }
  }

  lemma ConsumeKeeps(s: State, call: nat, now: int, fault: Fault)
    requires Inv(s) && call in s.calls && s.calls[call].Consuming?
    ensures Inv(ConsumeWrite(s, call, now, fault)) && RowsKept(s.rows, ConsumeWrite(s, call, now, fault).rows)
  {
    var d := s.calls[call].demand;
    assert GoodPhase(s, call, s.calls[call]);
    if fault.Aborts? || !Available(s.rows, d, now) || UseKeyTaken(s.rows, d.organizationId, d.requestKey) {
      PhaseKeeps(s, call, Over);
    } else {
      var use := Use(now, d.userId, d.requestKey, PublicHash(d.id, d.scope));
      ClaimKeeps(s, call, d, use);
      PhaseKeeps(Claimed(s, call, d, use), call, if fault.NoFault? then Returned(None) else Over);
    }
  }

  lemma DispatchKeeps(s: State, call: nat, now: int, fault: Fault)
    requires Inv(s) && call in s.calls && s.calls[call].Dispatching?
    ensures Inv(DispatchClaim(s, call, now, fault)) && RowsKept(s.rows, DispatchClaim(s, call, now, fault).rows)
  {
    var c := s.calls[call];
    var d := c.demand;
    assert GoodPhase(s, call, c);
    if fault.Aborts? || !Bridge(c.user) || !Available(s.rows, d, now) || s.rows[d.id].scope != d.scope
       || UseKeyTaken(s.rows, d.organizationId, d.requestKey) {
      PhaseKeeps(s, call, Over);
    } else {
      var use := Use(now, d.userId, d.requestKey, DispatchHash(d.id, d.scope, c.target));
      ClaimKeeps(s, call, d, use);
      var z := Claimed(s, call, d, use);
      assert AuthorisedBy(z.claims[|s.claims|], call, d.id, c.target);
      PhaseKeeps(z, call, if fault.NoFault? then Cleared(c.capability, Some(d.id), c.target) else Over);
    }
  }

  lemma RevokedRows(s: State, id: nat, now: int)
    requires Inv(s) && id in s.rows
    ensures var rows := s.rows[id := s.rows[id].(revokedAt := Some(now))];
            && (forall k | 0 <= k < |s.claims| :: GoodClaim(rows, s.claims[k]))
            && UseKeysUnique(rows) && UsesLogged(s.(rows := rows)) && RowsKept(s.rows, rows)
  {
  }

  lemma RevokeKeeps(s: State, call: nat, now: int, fault: Fault)
    requires Inv(s) && call in s.calls && s.calls[call].Revoking?
    ensures Inv(RevokeWrite(s, call, now, fault)) && RowsKept(s.rows, RevokeWrite(s, call, now, fault).rows)
  {
    PhaseKeeps(s, call, Over);
    var z := To(s, call, Over);
    var id := s.calls[call].id;
    if id in s.rows {
      RevokedRows(z, id, now);
      PhasesIgnoreRows(z, z.rows[id := z.rows[id].(revokedAt := Some(now))]);
    }
  }

  /** Apart from the rows themselves nothing in the invariant depends on the table. */
  lemma PhasesIgnoreRows(s: State, rows: map<nat, Row>)
    requires Inv(s)
    requires forall k | 0 <= k < |s.claims| :: GoodClaim(rows, s.claims[k])
    requires UseKeysUnique(rows) && UsesLogged(s.(rows := rows))
    ensures Inv(s.(rows := rows))
  {
  }

  lemma InvokeKeeps(s: State, call: nat)
    requires Inv(s) && call in s.calls && s.calls[call].Cleared?
    ensures Inv(Step(s, Invokes(call)))
  {
  }

  lemma StepKeeps(s: State, e: Event)
    requires Inv(s)
    ensures Inv(Step(s, e)) && RowsKept(s.rows, Step(s, e).rows)
  {
    hide ConsumeWrite, DispatchClaim, RevokeWrite;
    match e
    case Creates(id, row, user, now) => CreateKeeps(s, e);
    case RevokeWrites(call, now, fault) => if call in s.calls && s.calls[call].Revoking? { RevokeKeeps(s, call, now, fault); }
    case ConsumeWrites(call, now, fault) => if call in s.calls && s.calls[call].Consuming? { ConsumeKeeps(s, call, now, fault); }
    case DispatchClaims(call, now, fault) => if call in s.calls && s.calls[call].Dispatching? { DispatchKeeps(s, call, now, fault); }
    case Invokes(call) => if call in s.calls && s.calls[call].Cleared? { InvokeKeeps(s, call); }
    case _ => CallKeeps(s, e);
  }

  lemma CreateKeeps(s: State, e: Event)
    requires Inv(s) && e.Creates?
    ensures Inv(Step(s, e)) && RowsKept(s.rows, Step(s, e).rows)
  {
  }

  lemma CallKeeps(s: State, e: Event)
    requires Inv(s) && (e.RevokeReads? || e.ConsumeReads? || e.DispatchBegins? || e.Crashes?)
    ensures Inv(Step(s, e)) && Step(s, e).rows == s.rows
  {
    hide IsExecutionTarget, EvidenceComplete, Inv, UseKeyTaken;
    if e.call !in s.calls {
      NewCallUninvoked(s, e.call);
      if !e.Crashes? {
        PhaseKeeps(s, e.call, Step(s, e).calls[e.call]);
      }
    } else if e.Crashes? {
      PhaseKeeps(s, e.call, Over);
    }
  }

  lemma {:induction false} RunKeeps(s: State, events: seq<Event>)
    requires Inv(s)
    ensures Inv(Run(s, events)) && RowsKept(s.rows, Run(s, events).rows)
    decreases |events|
  {
    hide Step;
    if events != [] {
      StepKeeps(s, events[0]);
      RunKeeps(Step(s, events[0]), events[1..]);
    }
  }

  lemma {:induction false} RunConcat(s: State, xs: seq<Event>, ys: seq<Event>)
    ensures Run(s, xs + ys) == Run(Run(s, xs), ys)
    decreases |xs|
  {
    hide Step;
    if xs == [] {
      assert xs + ys == ys;
    } else {
      assert (xs + ys)[1..] == xs[1..] + ys;
      RunConcat(Step(s, xs[0]), xs[1..], ys);
    }
  }

  // ---- Main results over every run ----

  /** Every code build invocation was authorised by a claim of its own call, which found the approval
      unused, unrevoked and unexpired, for exactly the organization and scope of the target. */
  lemma InvocationsApproved(events: seq<Event>, i: nat)
    requires i < |Run(INIT, events).invocations| && Run(INIT, events).invocations[i].capability == CODE_BUILD
    ensures var s, v := Run(INIT, events), Run(INIT, events).invocations[i];
            && v.approval.Some? && IsExecutionTarget(v.target)
            && v.target.scope.repository == "lavolpeofficial/vito-platform"
            && |v.target.scope.branch| > 5 && v.target.scope.branch[..5] == "feat/"
            && "" !in [v.target.organizationId, v.target.scope.missionId, v.target.workflowRunId, v.target.workflowStepRunId, v.target.providerId]
            && exists k :: 0 <= k < |s.claims|
                 && AuthorisedBy(s.claims[k], v.call, v.approval.value, v.target) && GoodClaim(s.rows, s.claims[k])
  {
    hide Step;
    RunKeeps(INIT, events);
    var s, v := Run(INIT, events), Run(INIT, events).invocations[i];
    assert GoodInvocation(s, v);
    var k :| 0 <= k < |s.claims| && AuthorisedBy(s.claims[k], v.call, v.approval.value, v.target);
    assert GoodClaim(s.rows, s.claims[k]);
    assert v.target.scope.branch[..5] == v.target.scope.branch[0..5];
  }

  // ---- Where approvals come from ----

  /** The event creates the row: a human owner or administrator of the organization asks for it, to expire later. */
  predicate CreatedBy(e: Event, id: nat, row: Row) {
    && e.Creates? && e.id == id
    && e.user.Some? && !e.user.value.machine && e.user.value.manager && e.now < row.expiresAt
    && row == e.row.(revokedAt := row.revokedAt, use := row.use)
  }

  lemma StepCreates(s: State, e: Event, id: nat)
    requires id in Step(s, e).rows
    ensures var row := Step(s, e).rows[id];
            || (id in s.rows && row == s.rows[id].(revokedAt := row.revokedAt, use := row.use))
            || CreatedBy(e, id, row)
  {
    hide IsExecutionTarget, EvidenceComplete, UseKeyTaken, RequestKeyTaken;
  }

  /** Every approval of any run was created by a human, with the content it still has. */
  lemma {:induction false} RowsAreCreated(s: State, events: seq<Event>, id: nat)
    requires id in Run(s, events).rows
    ensures var row := Run(s, events).rows[id];
            || (id in s.rows && row == s.rows[id].(revokedAt := row.revokedAt, use := row.use))
            || exists e | e in events :: CreatedBy(e, id, row)
    decreases |events|
  {
    hide Step;
    if events != [] {
      var z := Step(s, events[0]);
      RowsAreCreated(z, events[1..], id);
      if id in z.rows {
        StepCreates(s, events[0], id);
        assert CreatedBy(events[0], id, z.rows[id]) && Run(s, events).rows[id] == z.rows[id].(revokedAt := Run(s, events).rows[id].revokedAt, use := Run(s, events).rows[id].use)
               ==> CreatedBy(events[0], id, Run(s, events).rows[id]);
      }
    }
  }

  /** Behind every code build invocation stands a human: someone created the approval it used, for the very
      organization and scope of the target, and it had not expired when it was used. */
  lemma HumanBehindInvocation(events: seq<Event>, i: nat)
    requires i < |Run(INIT, events).invocations| && Run(INIT, events).invocations[i].capability == CODE_BUILD
    ensures var s, v := Run(INIT, events), Run(INIT, events).invocations[i];
            && v.approval.Some? && v.approval.value in s.rows
            && var row := s.rows[v.approval.value];
               && row.scope == v.target.scope && row.organizationId == v.target.organizationId
               && row.use.Some? && row.use.value.at < row.expiresAt
               && exists e | e in events :: CreatedBy(e, v.approval.value, row)
  {
    hide Step, IsExecutionTarget;
    InvocationsApproved(events, i);
    var s, v := Run(INIT, events), Run(INIT, events).invocations[i];
    var k :| 0 <= k < |s.claims| && AuthorisedBy(s.claims[k], v.call, v.approval.value, v.target) && GoodClaim(s.rows, s.claims[k]);
    RowsAreCreated(INIT, events, v.approval.value);
  }

  ghost predicate RequestKeysUnique(rows: map<nat, Row>) {
    forall x, y | x in rows && y in rows && rows[x].organizationId == rows[y].organizationId
                  && rows[x].requestKey == rows[y].requestKey :: x == y
  }

  lemma StepKeepsRequestKeys(s: State, e: Event)
    requires RequestKeysUnique(s.rows)
    ensures RequestKeysUnique(Step(s, e).rows)
  {
    hide IsExecutionTarget, EvidenceComplete, UseKeyTaken;
    var z := Step(s, e);
    forall x | x in z.rows && x in s.rows
      ensures z.rows[x].organizationId == s.rows[x].organizationId && z.rows[x].requestKey == s.rows[x].requestKey
    {
    }
  }

  lemma {:induction false} RunKeepsRequestKeys(s: State, events: seq<Event>)
    requires RequestKeysUnique(s.rows)
    ensures RequestKeysUnique(Run(s, events).rows)
    decreases |events|
  {
    hide Step, RequestKeysUnique;
    if events != [] {
      StepKeepsRequestKeys(s, events[0]);
      RunKeepsRequestKeys(Step(s, events[0]), events[1..]);
    }
  }

  /** However often it is asked for, an organization has at most one approval for a request key. */
  lemma OneApprovalPerKey(events: seq<Event>, x: nat, y: nat)
    requires x in Run(INIT, events).rows && y in Run(INIT, events).rows
    requires Run(INIT, events).rows[x].organizationId == Run(INIT, events).rows[y].organizationId
    requires Run(INIT, events).rows[x].requestKey == Run(INIT, events).rows[y].requestKey
    ensures x == y
  {
    hide Step;
    RunKeepsRequestKeys(INIT, events);
  }

  /** The two invocations used different approvals and, within an organization, different request keys. */
  ghost predicate ApprovedApart(rows: map<nat, Row>, x: Invocation, y: Invocation) {
    && x.approval.Some? && y.approval.Some? && x.approval != y.approval
    && x.approval.value in rows && y.approval.value in rows
    && rows[x.approval.value].use.Some? && rows[y.approval.value].use.Some?
    && (x.target.organizationId == y.target.organizationId ==>
          rows[x.approval.value].use.value.requestKey != rows[y.approval.value].use.value.requestKey)
  }

  ghost predicate IsCodeBuild(s: State, i: int) {
    0 <= i < |s.invocations| && s.invocations[i].capability == CODE_BUILD
  }

  /** Distinct code build invocations use distinct approvals and, within an organization, distinct
      request keys. */
  lemma DistinctApprovals(events: seq<Event>)
    ensures var s := Run(INIT, events);
            forall i, j | IsCodeBuild(s, i) && IsCodeBuild(s, j) && i != j :: ApprovedApart(s.rows, s.invocations[i], s.invocations[j])
  {
    hide Step;
    RunKeeps(INIT, events);
    var s := Run(INIT, events);
    forall i, j | IsCodeBuild(s, i) && IsCodeBuild(s, j) && i != j
      ensures ApprovedApart(s.rows, s.invocations[i], s.invocations[j])
    {
      InvocationsApart(s, i, j);
    }
  }

  lemma InvocationsApart(s: State, i: nat, j: nat)
    requires Inv(s) && IsCodeBuild(s, i) && IsCodeBuild(s, j) && i != j
    ensures ApprovedApart(s.rows, s.invocations[i], s.invocations[j])
  {
    hide IsExecutionTarget;
    var x, y := s.invocations[i], s.invocations[j];
    assert GoodInvocation(s, x) && GoodInvocation(s, y);
    var k :| 0 <= k < |s.claims| && AuthorisedBy(s.claims[k], x.call, x.approval.value, x.target);
    var l :| 0 <= l < |s.claims| && AuthorisedBy(s.claims[l], y.call, y.approval.value, y.target);
    assert GoodClaim(s.rows, s.claims[k]) && GoodClaim(s.rows, s.claims[l]);
  }

  /** No approval is consumed twice, by whichever operation. */
  lemma ClaimedOnce(events: seq<Event>, j: nat, k: nat)
    requires j < |Run(INIT, events).claims| && k < |Run(INIT, events).claims|
    ensures var s := Run(INIT, events);
            && GoodClaim(s.rows, s.claims[k])
            && (s.claims[j].id == s.claims[k].id ==> j == k)
  {
    hide Step;
    RunKeeps(INIT, events);
  }

  /** Whatever happens after an approval was revoked or used, it is not used again: its use and its
      claims are final. */
  lemma NoUseAfterRevocation(before: seq<Event>, after: seq<Event>, id: nat)
    requires var r := Run(INIT, before).rows; id in r && (r[id].revokedAt.Some? || r[id].use.Some?)
    ensures var s, z := Run(INIT, before), Run(INIT, before + after);
            && id in z.rows && z.rows[id].use == s.rows[id].use
            && (s.rows[id].revokedAt.Some? ==> z.rows[id].revokedAt.Some?)
            && (s.rows[id].use.None? ==> forall k | 0 <= k < |z.claims| :: z.claims[k].id != id)
  {
    hide Step;
    RunKeeps(INIT, before);
    RunConcat(INIT, before, after);
    RunKeeps(Run(INIT, before), after);
    var s, z := Run(INIT, before), Run(INIT, before + after);
    if s.rows[id].use.None? {
      forall k | 0 <= k < |z.claims| ensures z.claims[k].id != id {
        assert GoodClaim(z.rows, z.claims[k]);
      }
    }
  }

  /** An approval taken by the public `consume`, replayed or not, never authorises an invocation. */
  lemma PublicUseNeverInvokes(events: seq<Event>, id: nat, i: nat)
    requires var s := Run(INIT, events);
             id in s.rows && s.rows[id].use.Some? && s.rows[id].use.value.hash.PublicHash? && i < |s.invocations|
    ensures Run(INIT, events).invocations[i].approval != Some(id)
  {
    hide Step;
    RunKeeps(INIT, events);
    var s := Run(INIT, events);
    var v := s.invocations[i];
    assert GoodInvocation(s, v);
    assert forall k | 0 <= k < |s.claims| :: GoodClaim(s.rows, s.claims[k]);
  }

  // ---- Revocation against consumption ----

  ghost predicate Clash(rows: map<nat, Row>) {
    exists id | id in rows :: rows[id].revokedAt.Some? && rows[id].use.Some?
  }

  /** The event commits a revocation of a row that was consumed since the revocation read it. */
  predicate RevokesUsed(s: State, e: Event) {
    && e.RevokeWrites? && !e.fault.Aborts? && e.call in s.calls && s.calls[e.call].Revoking?
    && s.calls[e.call].id in s.rows && s.rows[s.calls[e.call].id].use.Some?
  }

  ghost predicate EverRevokesUsed(s: State, events: seq<Event>)
    decreases |events|
  {
    events != [] && (RevokesUsed(s, events[0]) || EverRevokesUsed(Step(s, events[0]), events[1..]))
  }

  lemma StepClashes(s: State, e: Event)
    ensures Clash(Step(s, e).rows) <==> Clash(s.rows) || RevokesUsed(s, e)
  {
    hide IsExecutionTarget, EvidenceComplete;
    var z := Step(s, e);
    if RevokesUsed(s, e) {
      var id := s.calls[e.call].id;
      assert z.rows[id].revokedAt.Some? && z.rows[id].use.Some?;
    }
    if Clash(s.rows) {
      var id :| id in s.rows && s.rows[id].revokedAt.Some? && s.rows[id].use.Some?;
      assert id in z.rows && z.rows[id].revokedAt.Some? && z.rows[id].use.Some?;
    }
  }

  /** A run leaves an approval both consumed and revoked exactly when one of its revocations commits
      after a consumption slipped in behind its read. */
  lemma {:induction false} ClashExactly(s: State, events: seq<Event>)
    ensures Clash(Run(s, events).rows) <==> Clash(s.rows) || EverRevokesUsed(s, events)
    decreases |events|
  {
    hide Step, RevokesUsed, Clash;
    if events != [] {
      StepClashes(s, events[0]);
      ClashExactly(Step(s, events[0]), events[1..]);
    }
  }

  /** Every read of a revocation is followed at once by its write. */
  predicate RevokesAtomically(events: seq<Event>) {
    forall i | 0 <= i < |events| && events[i].RevokeReads? ::
      i + 1 < |events| && events[i + 1].RevokeWrites? && events[i + 1].call == events[i].call
  }

  predicate NoneRevoking(s: State) {
    forall c | c in s.calls :: !s.calls[c].Revoking?
  }

  lemma OtherStepsLeaveNoneRevoking(s: State, e: Event)
    requires NoneRevoking(s) && !e.RevokeReads?
    ensures NoneRevoking(Step(s, e)) && !RevokesUsed(s, e)
  {
    hide IsExecutionTarget, EvidenceComplete;
  }

  lemma RevocationAtOnce(s: State, read: Event, write: Event)
    requires NoneRevoking(s) && read.RevokeReads? && write.RevokeWrites? && write.call == read.call
    ensures !RevokesUsed(Step(s, read), write) && NoneRevoking(Step(Step(s, read), write))
  {
  }

  lemma {:induction false} AtomicRevocationsAreSafe(s: State, events: seq<Event>)
    requires NoneRevoking(s) && RevokesAtomically(events)
    ensures !EverRevokesUsed(s, events)
    decreases |events|
  {
    hide Step, RevokesUsed, NoneRevoking;
    if events != [] {
      if events[0].RevokeReads? {
        var write := events[1];
        RevocationAtOnce(s, events[0], write);
        assert !RevokesUsed(s, events[0]) by { ReadRevokesNothing(s, events[0]); }
        assert events[1..][0] == write && events[1..][1..] == events[2..];
        AtomicRevocationsAreSafe(Step(Step(s, events[0]), write), events[2..]);
      } else {
        OtherStepsLeaveNoneRevoking(s, events[0]);
        AtomicRevocationsAreSafe(Step(s, events[0]), events[1..]);
      }
    }
  }

  lemma ReadRevokesNothing(s: State, e: Event)
    requires e.RevokeReads?
    ensures !RevokesUsed(s, e)
  {
  }

  /** So in every run whose revocations are atomic no approval is both consumed and revoked. */
  lemma AtomicRevocationsNeverClash(events: seq<Event>)
    requires RevokesAtomically(events)
    ensures !Clash(Run(INIT, events).rows)
  {
    AtomicRevocationsAreSafe(INIT, events);
    ClashExactly(INIT, events);
  }

  const OWNER := Some(User(false, false, true))
  const MACHINE := Some(User(true, true, false))

  /** Interleaved, the operations do clash: any approval can end up consumed and revoked, although
      `revoke` refuses a consumed approval. */
  lemma RevokeRace(row: Row, now: int)
    requires now < row.expiresAt
    ensures Clash(Run(INIT, RaceOn(row, now)).rows)
  {
    var d := Demand(row.organizationId, "m", 0, row.scope, "k");
    var s1 := Step(INIT, Creates(0, row, OWNER, now));
    assert s1.rows[0] == row.(revokedAt := None, use := None);
    var s2 := Step(s1, RevokeReads(0, row.organizationId, 0, OWNER));
    var s3 := Step(s2, ConsumeReads(1, d, MACHINE, now));
    assert s3.calls[1] == Consuming(d) && s3.calls[0] == Revoking(0) && s3.rows == s1.rows;
    var s4 := Step(s3, ConsumeWrites(1, now, NoFault));
    assert s4.calls[0] == Revoking(0) && s4.rows[0].use.Some?;
    assert RevokesUsed(s4, RevokeWrites(0, now, NoFault));
    StepClashes(s4, RevokeWrites(0, now, NoFault));
    RunFive(INIT, RaceOn(row, now));
  }

  function RaceOn(row: Row, now: int): seq<Event> {
    [Creates(0, row, OWNER, now), RevokeReads(0, row.organizationId, 0, OWNER),
     ConsumeReads(1, Demand(row.organizationId, "m", 0, row.scope, "k"), MACHINE, now), ConsumeWrites(1, now, NoFault),
     RevokeWrites(0, now, NoFault)]
  }

  lemma RunFive(s: State, e: seq<Event>)
    requires |e| == 5
    ensures Run(s, e) == Step(Step(Step(Step(Step(s, e[0]), e[1]), e[2]), e[3]), e[4])
  {
    hide Step;
    var s1 := Step(s, e[0]);
    var s2 := Step(s1, e[1]);
    var s3 := Step(s2, e[2]);
    var s4 := Step(s3, e[3]);
    assert e[1..][1..] == e[2..] && e[2..][1..] == e[3..] && e[3..][1..] == e[4..] && e[4..][1..] == [];
    assert Run(s1, e[1..]) == Run(s2, e[2..]);
    assert Run(s2, e[2..]) == Run(s3, e[3..]);
    assert Run(s3, e[3..]) == Run(s4, e[4..]);
    assert Run(s4, e[4..]) == Step(s4, e[4]);
  }

  /** One dispatch left to run on its own. */
  function Undisturbed(call: nat, d: Demand, target: Target, user: Option<User>, now: int): seq<Event> {
    [DispatchBegins(call, CODE_BUILD, Some(d), target, user), DispatchClaims(call, now, NoFault), Invokes(call)]
  }

  /** No approval of the organization was used with the request key. */
  ghost predicate KeyUnspent(rows: map<nat, Row>, organizationId: string, key: string) {
    forall id | id in rows && rows[id].organizationId == organizationId && rows[id].use.Some? :: rows[id].use.value.requestKey != key
  }

  /** The approval belongs to the organization, covers the scope, and is neither used, revoked nor expired. */
  predicate Covers(rows: map<nat, Row>, d: Demand, now: int) {
    && d.id in rows
    && var row := rows[d.id];
       && row.organizationId == d.organizationId && row.scope == d.scope
       && row.use == None && row.revokedAt == None && now < row.expiresAt
  }

  /** A well-formed code build dispatch invokes its provider exactly when a machine identity of the bridge asks,
      the approval covers the demand, and the request key has not been spent; then the approval is used up. */
  lemma InvokesExactlyWhenApproved(s: State, call: nat, d: Demand, target: Target, user: Option<User>, now: int)
    requires call !in s.calls && EvidenceComplete(d)
    requires IsExecutionTarget(target) && target.organizationId == d.organizationId && target.scope == d.scope
    ensures var z := Run(s, Undisturbed(call, d, target, user, now));
            if user.Some? && user.value.machine && user.value.bridge && Covers(s.rows, d, now)
               && KeyUnspent(s.rows, d.organizationId, d.requestKey)
            then && z.invocations == s.invocations + [Invocation(call, CODE_BUILD, Some(d.id), target)]
                 && z.rows == s.rows[d.id := s.rows[d.id].(use := Some(Use(now, d.userId, d.requestKey, DispatchHash(d.id, d.scope, target))))]
            else z.invocations == s.invocations && z.rows == s.rows
  {
    hide IsExecutionTarget, EvidenceComplete;
    assert KeyUnspent(s.rows, d.organizationId, d.requestKey) <==> !UseKeyTaken(s.rows, d.organizationId, d.requestKey);
    hide UseKeyTaken, KeyUnspent;
    var e := Undisturbed(call, d, target, user, now);
    assert target == target.(organizationId := d.organizationId, scope := d.scope);
    var s1 := Step(s, e[0]);
    assert s1.calls[call] == Dispatching(CODE_BUILD, d, target, user) && s1.rows == s.rows && s1.invocations == s.invocations;
    var s2 := Step(s1, e[1]);
    var s3 := Step(s2, e[2]);
    assert e[1..][1..] == e[2..] && e[2..][1..] == [];
    assert Run(s, e) == Run(s1, e[1..]);
    assert Run(s1, e[1..]) == Run(s2, e[2..]);
    assert Run(s2, e[2..]) == s3;
  }

  lemma RunTwo(s: State, a: Event, b: Event)
    ensures Run(s, [a, b]) == Step(Step(s, a), b)
  {
    hide Step;
    assert [a, b][1..] == [b] && [b][1..] == [];
    assert Run(s, [a, b]) == Run(Step(s, a), [b]);
    assert Run(Step(s, a), [b]) == Step(Step(s, a), b);
  }

  /** A revocation left to run on its own takes effect exactly for a human of the organization and an
      approval that has not been consumed; no other row changes. */
  lemma RevokesExactly(s: State, call: nat, org: string, id: nat, user: Option<User>, now: int)
    requires call !in s.calls && id in s.rows && s.rows[id].revokedAt.None?
    ensures var z := Run(s, [RevokeReads(call, org, id, user), RevokeWrites(call, now, NoFault)]);
            z.rows == if user.Some? && !user.value.machine && user.value.manager && s.rows[id].organizationId == org && s.rows[id].use.None?
                      then s.rows[id := s.rows[id].(revokedAt := Some(now))] else s.rows
  {
    RunTwo(s, RevokeReads(call, org, id, user), RevokeWrites(call, now, NoFault));
  }

  /** A public consumption left to run on its own uses the approval exactly when it is available and
      covers the scope; on a used approval it changes nothing and returns it only to an exact repeat. */
  lemma ConsumesExactly(s: State, call: nat, d: Demand, user: Option<User>, now: int)
    requires call !in s.calls && d.id in s.rows
    ensures var z, row := Run(s, [ConsumeReads(call, d, user, now), ConsumeWrites(call, now, NoFault)]), s.rows[d.id];
            && (z.rows != s.rows <==>
                  user.Some? && user.value.machine && Covers(s.rows, d, now) && KeyUnspent(s.rows, d.organizationId, d.requestKey))
            && (z.rows != s.rows ==>
                  z.rows == s.rows[d.id := row.(use := Some(Use(now, d.userId, d.requestKey, PublicHash(d.id, d.scope))))])
            && call in z.calls
            && (z.calls[call] == Returned(Some(d.id)) <==>
                  && user.Some? && user.value.machine && row.organizationId == d.organizationId && row.use.Some?
                  && row.use.value == Use(row.use.value.at, d.userId, d.requestKey, PublicHash(d.id, d.scope)))
            && z.invocations == s.invocations
  {
    assert KeyUnspent(s.rows, d.organizationId, d.requestKey) <==> !UseKeyTaken(s.rows, d.organizationId, d.requestKey);
    hide UseKeyTaken, KeyUnspent;
    var s1 := Step(s, ConsumeReads(call, d, user, now));
    RunTwo(s, ConsumeReads(call, d, user, now), ConsumeWrites(call, now, NoFault));
    assert s1.rows == s.rows && s1.invocations == s.invocations;
    if s1.calls[call].Consuming? {
      var row := s.rows[d.id];
      assert s.rows[d.id := row.(use := Some(Use(now, d.userId, d.requestKey, PublicHash(d.id, d.scope))))][d.id] != row;
    }
  }
}
