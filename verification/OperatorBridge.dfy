/** Submission of operator tasks: racing calls for one request id, the unique key that elects one of
    them, the dispatch it owns, and the single terminal write. Reads and writes are separate steps. */
module OperatorBridge {
  import opened Strings
  import Governance
  import Prompt
  import RequestFingerprint

  /** A submission. SHA-256 is taken as injective, so a fingerprint is the byte string that is hashed. */
  datatype Request = Request(requestId: string, content: RequestFingerprint.Content)

  datatype Fingerprint = Fingerprint(bytes: seq<Prompt.Byte>)

  function FingerprintOf(r: Request): Fingerprint {
    Fingerprint(RequestFingerprint.FingerprintOf(r.content))
  }

  // ---- State ----

  datatype Status = DISPATCHING | COMPLETED | HUMAN_GATE | FAILED

  /** A row of the task table; `creator` records which call inserted it. */
  datatype Task = Task(
    organizationId: string, requestId: string, fingerprint: Fingerprint, status: Status, creator: nat,
    prompt: Option<Prompt.Text>, output: Option<string>, payloadAvailable: bool, payloadExpiresAt: int)

  datatype Phase =
    | Finding
    | Inserting
    | Rereading
    | Owning(task: nat)
    | Awaiting(task: nat)
    | Persisting(task: nat, status: Status, output: Option<string>)
    | Answered(task: nat)
    | Conflict
    | Failed

  datatype Call = Call(organizationId: string, request: Request, taskId: nat, expiresAt: int, phase: Phase)

  datatype Dispatch = Dispatch(call: nat, task: nat)

  datatype Write = Write(call: nat, task: nat, status: Status)

  datatype State = State(tasks: map<nat, Task>, calls: map<nat, Call>, dispatches: seq<Dispatch>, writes: seq<Write>)

  const INIT := State(map[], map[], [], [])

  datatype Fault = NoFault | Aborts | CommitsAndThrows

  datatype Event =
    | Submits(call: nat, organizationId: string, request: Request, taskId: nat, expiresAt: int)
    | Finds(call: nat, fails: bool)
    | Inserts(call: nat, fault: Fault)
    | Rereads(call: nat, fails: bool)
    | Dispatches(call: nat)
    | DispatchReturns(call: nat, status: Governance.AgentStatus, output: Option<string>)
    | DispatchThrows(call: nat)
    | Persists(call: nat, now: int, fault: Fault)
    | Crashes(call: nat)
    | PayloadDeleted(task: nat)

  predicate Matches(t: Task, organizationId: string, requestId: string) {
    t.organizationId == organizationId && t.requestId == requestId
  }

  predicate KeyTaken(tasks: map<nat, Task>, organizationId: string, requestId: string) {
    exists id | id in tasks :: Matches(tasks[id], organizationId, requestId)
  }

  /** `findUnique` on the key; the unique index makes the choice unambiguous. */
  ghost function TaskOf(tasks: map<nat, Task>, organizationId: string, requestId: string): (id: nat)
    requires KeyTaken(tasks, organizationId, requestId)
    ensures id in tasks && Matches(tasks[id], organizationId, requestId)
  {
    var id :| id in tasks && Matches(tasks[id], organizationId, requestId); id
  }

  // ---- Steps ----

  function To(s: State, call: nat, phase: Phase): State
    requires call in s.calls
  {
    s.(calls := s.calls[call := s.calls[call].(phase := phase)])
  }

  ghost function ResolveExisting(s: State, call: nat): State
    requires call in s.calls && KeyTaken(s.tasks, s.calls[call].organizationId, s.calls[call].request.requestId)
  {
    var c := s.calls[call];
    var id := TaskOf(s.tasks, c.organizationId, c.request.requestId);
    To(s, call, if s.tasks[id].fingerprint == FingerprintOf(c.request) then Answered(id) else Conflict)
  }

  ghost function Find(s: State, call: nat, fails: bool): State
    requires call in s.calls
  {
    var c := s.calls[call];
    if fails then To(s, call, Failed)
    else if KeyTaken(s.tasks, c.organizationId, c.request.requestId) then ResolveExisting(s, call)
    else To(s, call, Inserting)
  }

  function NewTask(call: nat, c: Call): Task {
    Task(c.organizationId, c.request.requestId, FingerprintOf(c.request), DISPATCHING, call, Some(c.request.content.prompt), None, true, c.expiresAt)
  }

  function Insert(s: State, call: nat, fault: Fault): State
    requires call in s.calls
  {
    var c := s.calls[call];
    if fault.Aborts? || c.taskId in s.tasks then To(s, call, Failed)
    else if KeyTaken(s.tasks, c.organizationId, c.request.requestId) then To(s, call, if fault.NoFault? then Rereading else Failed)
    else To(s, call, if fault.NoFault? then Owning(c.taskId) else Failed).(tasks := s.tasks[c.taskId := NewTask(call, c)])
  }

  ghost function Reread(s: State, call: nat, fails: bool): State
    requires call in s.calls
  {
    var c := s.calls[call];
    if fails || !KeyTaken(s.tasks, c.organizationId, c.request.requestId) then To(s, call, Failed)
    else ResolveExisting(s, call)
  }

  /** The terminal status of a task for the status of its execution. */
  function Terminal(status: Governance.AgentStatus): Status {
    match status
    case SUCCEEDED => COMPLETED
    case POLICY_BLOCKED => HUMAN_GATE
    case _ => FAILED
  }

  predicate PayloadExpired(t: Task, now: int) {
    !t.payloadAvailable || t.payloadExpiresAt <= now
  }

  /** The locked read and the update are one step: the row lock excludes everything in between. */
  function Persist(s: State, call: nat, now: int, fault: Fault): State
    requires call in s.calls && s.calls[call].phase.Persisting?
  {
    var p := s.calls[call].phase;
    if fault.Aborts? || p.task !in s.tasks || s.tasks[p.task].organizationId != s.calls[call].organizationId
       || !s.tasks[p.task].status.DISPATCHING?
    then To(s, call, Failed)
    else
      To(s, call, if fault.NoFault? then Answered(p.task) else Failed)
        .(tasks := s.tasks[p.task := Settled(s.tasks[p.task], p.status, p.output, now)], writes := s.writes + [Write(call, p.task, p.status)])
  }

  ghost function Step(s: State, e: Event): State {
    if e.Submits? then
      if e.call in s.calls then s else s.(calls := s.calls[e.call := Call(e.organizationId, e.request, e.taskId, e.expiresAt, Finding)])
    else if e.PayloadDeleted? then
      if e.task !in s.tasks then s
      else s.(tasks := s.tasks[e.task := s.tasks[e.task].(prompt := None, output := None, payloadAvailable := false)])
    else if e.call !in s.calls then s
    else
      var phase := s.calls[e.call].phase;
      match e
      case Finds(call, fails) => if phase.Finding? then Find(s, call, fails) else s
      case Inserts(call, fault) => if phase.Inserting? then Insert(s, call, fault) else s
      case Rereads(call, fails) => if phase.Rereading? then Reread(s, call, fails) else s
      case Dispatches(call) =>
        if phase.Owning? then To(s, call, Awaiting(phase.task)).(dispatches := s.dispatches + [Dispatch(call, phase.task)]) else s
      case DispatchReturns(call, status, output) =>
        if phase.Awaiting? then To(s, call, Persisting(phase.task, Terminal(status), output)) else s
      case DispatchThrows(call) => if phase.Awaiting? then To(s, call, Persisting(phase.task, FAILED, None)) else s
      case Persists(call, now, fault) => if phase.Persisting? then Persist(s, call, now, fault) else s
      case Crashes(call) => To(s, call, Failed)
      case _ => s
  }

  ghost function Run(s: State, events: seq<Event>): State
    decreases |events|
  {
    if events == [] then s else Run(Step(s, events[0]), events[1..])
  }

  // ---- The invariant ----

  ghost predicate KeysUnique(tasks: map<nat, Task>) {
    forall x, y | x in tasks && y in tasks && Matches(tasks[x], tasks[y].organizationId, tasks[y].requestId) :: x == y
  }

  /** The task carries exactly the request of this call. */
  ghost predicate Serves(tasks: map<nat, Task>, id: nat, c: Call) {
    id in tasks && Matches(tasks[id], c.organizationId, c.request.requestId) && tasks[id].fingerprint == FingerprintOf(c.request)
  }

  ghost predicate Undispatched(s: State, call: nat) {
    forall i | 0 <= i < |s.dispatches| :: s.dispatches[i].call != call
  }

  ghost predicate GoodCall(s: State, call: nat, c: Call) {
    match c.phase
    case Owning(id) => Serves(s.tasks, id, c) && s.tasks[id].creator == call && Undispatched(s, call)
    case Awaiting(id) => Serves(s.tasks, id, c) && s.tasks[id].creator == call
    case Persisting(id, status, _) => Serves(s.tasks, id, c) && s.tasks[id].creator == call && !status.DISPATCHING?
    case Answered(id) => Serves(s.tasks, id, c)
    case Failed => true
    case _ => Undispatched(s, call) && NeverCreated(s.tasks, call)
  }

  ghost predicate NeverCreated(tasks: map<nat, Task>, call: nat) {
    forall id | id in tasks :: tasks[id].creator != call
  }

  ghost predicate GoodDispatch(s: State, d: Dispatch) {
    && d.call in s.calls && !s.calls[d.call].phase.Owning?
    && Serves(s.tasks, d.task, s.calls[d.call]) && s.tasks[d.task].creator == d.call
  }

  ghost predicate GoodWrite(s: State, w: Write) {
    && w.call in s.calls && Serves(s.tasks, w.task, s.calls[w.call]) && s.tasks[w.task].creator == w.call
    && s.tasks[w.task].status == w.status && !w.status.DISPATCHING?
  }

  ghost predicate CreatorsUnique(s: State) {
    && (forall x, y | x in s.tasks && y in s.tasks && s.tasks[x].creator == s.tasks[y].creator :: x == y)
    && (forall x | x in s.tasks :: s.tasks[x].creator in s.calls)
  }

  ghost predicate Inv(s: State) {
    && KeysUnique(s.tasks) && CreatorsUnique(s)
    && (forall c | c in s.calls :: GoodCall(s, c, s.calls[c]))
    && (forall i | 0 <= i < |s.dispatches| :: GoodDispatch(s, s.dispatches[i]))
    && (forall i, j | 0 <= i < |s.dispatches| && 0 <= j < |s.dispatches| && s.dispatches[i].call == s.dispatches[j].call :: i == j)
    && (forall i | 0 <= i < |s.writes| :: GoodWrite(s, s.writes[i]))
    && (forall i, j | 0 <= i < |s.writes| && 0 <= j < |s.writes| && s.writes[i].task == s.writes[j].task :: i == j)
  }

  /** Tasks are never removed or re-keyed, a terminal status is final, and deleted payload stays deleted. */
  ghost predicate TasksKept(before: map<nat, Task>, after: map<nat, Task>) {
    forall id | id in before ::
      && id in after && Matches(after[id], before[id].organizationId, before[id].requestId)
      && after[id].fingerprint == before[id].fingerprint && after[id].creator == before[id].creator
      && (before[id].status.DISPATCHING? || after[id].status == before[id].status)
      && (!before[id].payloadAvailable ==> !after[id].payloadAvailable)
      && (Erased(before[id]) ==> Erased(after[id]))
  }

  predicate Erased(t: Task) {
    !t.payloadAvailable && t.prompt.None? && t.output.None?
  }

  // ---- Every step keeps it ----

  lemma PhaseKeeps(s: State, call: nat, phase: Phase)
    requires Inv(s) && call in s.calls && GoodCall(s, call, s.calls[call].(phase := phase))
    requires phase.Owning? ==> s.calls[call].phase.Owning?
    ensures Inv(To(s, call, phase))
  {
    hide FingerprintOf, KeysUnique;
    var z := To(s, call, phase);
    forall i | 0 <= i < |s.writes| ensures GoodWrite(z, z.writes[i]) {
      assert GoodWrite(s, s.writes[i]);
    }
    forall i | 0 <= i < |s.dispatches| ensures GoodDispatch(z, z.dispatches[i]) {
      assert GoodDispatch(s, s.dispatches[i]);
    }
  }

  lemma FailKeeps(s: State, call: nat)
    requires Inv(s) && call in s.calls
    ensures Inv(To(s, call, Failed))
  {
    hide Inv;
    PhaseKeeps(s, call, Failed);
  }

  lemma SubmitKeeps(s: State, e: Event)
    requires Inv(s) && e.Submits?
    ensures Inv(Step(s, e))
  {
    hide FingerprintOf;
  }

  lemma ResolveKeeps(s: State, call: nat)
    requires Inv(s) && call in s.calls && KeyTaken(s.tasks, s.calls[call].organizationId, s.calls[call].request.requestId)
    requires Undispatched(s, call) && NeverCreated(s.tasks, call)
    ensures Inv(ResolveExisting(s, call)) && ResolveExisting(s, call).tasks == s.tasks
  {
    hide FingerprintOf, Inv;
    var c := s.calls[call];
    var id := TaskOf(s.tasks, c.organizationId, c.request.requestId);
    PhaseKeeps(s, call, if s.tasks[id].fingerprint == FingerprintOf(c.request) then Answered(id) else Conflict);
  }

  lemma AddTaskUnique(s: State, call: nat)
    requires Inv(s) && call in s.calls && s.calls[call].phase.Inserting? && s.calls[call].taskId !in s.tasks
    requires !KeyTaken(s.tasks, s.calls[call].organizationId, s.calls[call].request.requestId)
    ensures var c := s.calls[call];
            var z := To(s, call, Failed).(tasks := s.tasks[c.taskId := NewTask(call, c)]);
            KeysUnique(z.tasks) && CreatorsUnique(z) && TasksKept(s.tasks, z.tasks)
  {
    hide FingerprintOf, GoodDispatch, GoodWrite;
    assert GoodCall(s, call, s.calls[call]);
  }

  /** The table may gain tasks of calls that have failed and change status or payload of tasks without
      a recorded write. */
  ghost predicate Evolves(s: State, tasks: map<nat, Task>) {
    && (forall id | id in s.tasks ::
          && id in tasks && Matches(tasks[id], s.tasks[id].organizationId, s.tasks[id].requestId)
          && tasks[id].fingerprint == s.tasks[id].fingerprint && tasks[id].creator == s.tasks[id].creator)
    && (forall id | id in tasks && id !in s.tasks :: tasks[id].creator in s.calls && s.calls[tasks[id].creator].phase.Failed?)
    && (forall i | 0 <= i < |s.writes| && s.writes[i].task in s.tasks && s.writes[i].task in tasks ::
          tasks[s.writes[i].task].status == s.tasks[s.writes[i].task].status)
  }

  lemma EvolutionKeeps(s: State, tasks: map<nat, Task>)
    requires Inv(s) && Evolves(s, tasks) && KeysUnique(tasks) && CreatorsUnique(s.(tasks := tasks))
    ensures Inv(s.(tasks := tasks))
  {
    hide FingerprintOf, KeysUnique, CreatorsUnique;
    var z := s.(tasks := tasks);
    forall x | x in z.calls ensures GoodCall(z, x, z.calls[x]) {
      assert GoodCall(s, x, s.calls[x]);
    }
    forall i | 0 <= i < |s.writes| ensures GoodWrite(z, z.writes[i]) {
      assert GoodWrite(s, s.writes[i]);
    }
    forall i | 0 <= i < |s.dispatches| ensures GoodDispatch(z, z.dispatches[i]) {
      assert GoodDispatch(s, s.dispatches[i]);
    }
  }

  lemma AddTaskKeeps(s: State, call: nat)
    requires Inv(s) && call in s.calls && s.calls[call].phase.Inserting? && s.calls[call].taskId !in s.tasks
    requires !KeyTaken(s.tasks, s.calls[call].organizationId, s.calls[call].request.requestId)
    ensures var c := s.calls[call];
            var z := To(s, call, Failed).(tasks := s.tasks[c.taskId := NewTask(call, c)]);
            Inv(z) && TasksKept(s.tasks, z.tasks)
  {
    AddTaskUnique(s, call);
    AddEvolves(To(s, call, Failed), s.calls[call].taskId, NewTask(call, s.calls[call]));
    hide FingerprintOf, Inv, KeysUnique, CreatorsUnique, KeyTaken, TasksKept, Evolves, NewTask;
    PhaseKeeps(s, call, Failed);
    EvolutionKeeps(To(s, call, Failed), s.tasks[s.calls[call].taskId := NewTask(call, s.calls[call])]);
  }

  lemma AddEvolves(s: State, id: nat, t: Task)
    requires id !in s.tasks && t.creator in s.calls && s.calls[t.creator].phase.Failed?
    ensures Evolves(s, s.tasks[id := t])
  {
  }

  lemma OwnKeeps(s: State, call: nat, id: nat)
    requires Inv(s) && call in s.calls && Serves(s.tasks, id, s.calls[call]) && s.tasks[id].creator == call && Undispatched(s, call)
    ensures Inv(To(s, call, Owning(id)))
  {
    hide FingerprintOf;
    var z := To(s, call, Owning(id));
    forall i | 0 <= i < |s.dispatches| ensures GoodDispatch(z, z.dispatches[i]) {
      assert GoodDispatch(s, s.dispatches[i]);
    }
  }

  lemma InsertKeeps(s: State, call: nat, fault: Fault)
    requires Inv(s) && call in s.calls && s.calls[call].phase.Inserting?
    ensures Inv(Insert(s, call, fault)) && TasksKept(s.tasks, Insert(s, call, fault).tasks)
  {
    hide FingerprintOf, Inv;
    var c := s.calls[call];
    InsertingIsNew(s, call);
    if fault.Aborts? || c.taskId in s.tasks || KeyTaken(s.tasks, c.organizationId, c.request.requestId) {
      PhaseKeeps(s, call, Insert(s, call, fault).calls[call].phase);
    } else {
      AddTaskKeeps(s, call);
      var z := To(s, call, Failed).(tasks := s.tasks[c.taskId := NewTask(call, c)]);
      if fault.NoFault? {
        OwnKeeps(z, call, c.taskId);
        assert To(z, call, Owning(c.taskId)) == Insert(s, call, fault);
      }
    }
  }

  lemma InsertingIsNew(s: State, call: nat)
    requires Inv(s) && call in s.calls
    requires s.calls[call].phase.Inserting? || s.calls[call].phase.Finding? || s.calls[call].phase.Rereading?
    ensures Undispatched(s, call) && NeverCreated(s.tasks, call)
  {
  }

  lemma DispatchKeeps(s: State, call: nat)
    requires Inv(s) && call in s.calls && s.calls[call].phase.Owning?
    ensures Inv(Step(s, Dispatches(call)))
  {
    hide FingerprintOf, KeysUnique;
    var id := s.calls[call].phase.task;
    assert GoodCall(s, call, s.calls[call]);
    PhaseKeeps(s, call, Awaiting(id));
    var m := To(s, call, Awaiting(id));
    var z := m.(dispatches := m.dispatches + [Dispatch(call, id)]);
    forall x | x in z.calls ensures GoodCall(z, x, z.calls[x]) {
      assert GoodCall(m, x, m.calls[x]);
    }
    forall i | 0 <= i < |s.writes| ensures GoodWrite(z, z.writes[i]) {
      assert GoodWrite(m, m.writes[i]);
    }
    forall i | 0 <= i < |s.dispatches| ensures GoodDispatch(z, z.dispatches[i]) {
      assert GoodDispatch(m, m.dispatches[i]);
    }
  }

  lemma TaskChangeUnique(s: State, id: nat, t: Task)
    requires KeysUnique(s.tasks) && CreatorsUnique(s)
    requires id in s.tasks && t == s.tasks[id].(status := t.status, prompt := t.prompt, output := t.output, payloadAvailable := t.payloadAvailable)
    ensures KeysUnique(s.tasks[id := t]) && CreatorsUnique(s.(tasks := s.tasks[id := t]))
  {
  }

  /** Changing status or payload of one task, when no write of it is on record, keeps the invariant. */
  lemma TaskChangeKeeps(s: State, id: nat, t: Task)
    requires Inv(s) && id in s.tasks && t == s.tasks[id].(status := t.status, prompt := t.prompt, output := t.output, payloadAvailable := t.payloadAvailable)
    requires t.status == s.tasks[id].status || forall i | 0 <= i < |s.writes| :: s.writes[i].task != id
    ensures Inv(s.(tasks := s.tasks[id := t]))
  {
    TaskChangeUnique(s, id, t);
    hide FingerprintOf, KeysUnique, CreatorsUnique, GoodCall, GoodDispatch, GoodWrite;
    EvolutionKeeps(s, s.tasks[id := t]);
  }

  lemma WriteKeeps(s: State, w: Write)
    requires Inv(s) && GoodWrite(s, w) && forall i | 0 <= i < |s.writes| :: s.writes[i].task != w.task
    ensures Inv(s.(writes := s.writes + [w]))
  {
    hide FingerprintOf;
    var z := s.(writes := s.writes + [w]);
    forall x | x in z.calls ensures GoodCall(z, x, z.calls[x]) {
      assert GoodCall(s, x, s.calls[x]);
    }
  }

  /** The task as a terminal write leaves it. */
  function Settled(t: Task, status: Status, output: Option<string>, now: int): Task {
    var settled := t.(status := status);
    if PayloadExpired(settled, now) then settled.(prompt := None, output := None, payloadAvailable := false) else settled.(output := output)
  }

  lemma PersistWrites(s: State, call: nat, now: int, fault: Fault)
    requires call in s.calls && s.calls[call].phase.Persisting?
    ensures var p, z := s.calls[call].phase, Persist(s, call, now, fault);
            || z == To(s, call, Failed)
            || (&& p.task in s.tasks && s.tasks[p.task].status.DISPATCHING?
                && z == To(s.(tasks := s.tasks[p.task := Settled(s.tasks[p.task], p.status, p.output, now)]), call,
                           if fault.NoFault? then Answered(p.task) else Failed)
                          .(writes := s.writes + [Write(call, p.task, p.status)]))
    ensures TasksKept(s.tasks, Persist(s, call, now, fault).tasks)
  {
  }

  lemma SettledFields(t: Task, status: Status, output: Option<string>, now: int)
    ensures var z := Settled(t, status, output, now);
            z == t.(status := status, prompt := z.prompt, output := z.output, payloadAvailable := z.payloadAvailable)
  {
  }

  lemma Unwritten(s: State, id: nat)
    requires Inv(s) && id in s.tasks && s.tasks[id].status.DISPATCHING?
    ensures forall i | 0 <= i < |s.writes| :: s.writes[i].task != id
  {
    hide FingerprintOf, KeysUnique, CreatorsUnique, GoodCall, GoodDispatch;
    assert forall i | 0 <= i < |s.writes| :: GoodWrite(s, s.writes[i]);
  }

  /** The call that settles serves the task before and after its status changes. */
  lemma StillServes(s: State, call: nat, t: Task)
    requires Inv(s) && call in s.calls && s.calls[call].phase.Persisting?
    requires var id := s.calls[call].phase.task;
             id in s.tasks && t == s.tasks[id].(status := t.status, prompt := t.prompt, output := t.output, payloadAvailable := t.payloadAvailable)
    ensures var p := s.calls[call].phase;
            && Serves(s.tasks[p.task := t], p.task, s.calls[call]) && t.creator == call && !p.status.DISPATCHING?
  {
    hide FingerprintOf, KeysUnique, CreatorsUnique, GoodDispatch, GoodWrite;
    assert GoodCall(s, call, s.calls[call]);
  }

  lemma SettleKeeps(s: State, call: nat, t: Task, phase: Phase)
    requires Inv(s) && call in s.calls && s.calls[call].phase.Persisting?
    requires var p := s.calls[call].phase;
             && p.task in s.tasks && s.tasks[p.task].status.DISPATCHING? && (phase == Answered(p.task) || phase == Failed)
             && t == s.tasks[p.task].(status := p.status, prompt := t.prompt, output := t.output, payloadAvailable := t.payloadAvailable)
    ensures var p := s.calls[call].phase;
            var m := s.(tasks := s.tasks[p.task := t]);
            Inv(To(m, call, phase).(writes := s.writes + [Write(call, p.task, p.status)]))
  {
    hide Inv, FingerprintOf;
    var p := s.calls[call].phase;
    var m := s.(tasks := s.tasks[p.task := t]);
    Unwritten(s, p.task);
    StillServes(s, call, t);
    TaskChangeKeeps(s, p.task, t);
    hide Serves;
    PhaseKeeps(m, call, phase);
    SettledWrite(To(m, call, phase), call, p.task, p.status);
  }

  lemma SettledWrite(s: State, call: nat, id: nat, status: Status)
    requires Inv(s) && call in s.calls && Serves(s.tasks, id, s.calls[call]) && s.tasks[id].creator == call
    requires s.tasks[id].status == status && !status.DISPATCHING? && forall i | 0 <= i < |s.writes| :: s.writes[i].task != id
    ensures Inv(s.(writes := s.writes + [Write(call, id, status)]))
  {
    hide Inv, FingerprintOf;
    WriteKeeps(s, Write(call, id, status));
  }

  lemma PersistKeeps(s: State, call: nat, now: int, fault: Fault)
    requires Inv(s) && call in s.calls && s.calls[call].phase.Persisting?
    ensures Inv(Persist(s, call, now, fault)) && TasksKept(s.tasks, Persist(s, call, now, fault).tasks)
  {
    PersistWrites(s, call, now, fault);
    hide Inv, FingerprintOf, Persist, TasksKept, Settled;
    var p := s.calls[call].phase;
    hide PayloadExpired, TasksKept;
    if Persist(s, call, now, fault) == To(s, call, Failed) {
      FailKeeps(s, call);
    } else {
      SettledFields(s.tasks[p.task], p.status, p.output, now);
      SettleKeeps(s, call, Settled(s.tasks[p.task], p.status, p.output, now), if fault.NoFault? then Answered(p.task) else Failed);
    }
  }

  lemma StepKeeps(s: State, e: Event)
    requires Inv(s)
    ensures Inv(Step(s, e)) && TasksKept(s.tasks, Step(s, e).tasks)
  {
    hide FingerprintOf, Inv, Insert, Persist, Find, Reread;
    if e.Submits? {
      SubmitKeeps(s, e);
    } else if e.PayloadDeleted? {
      if e.task in s.tasks {
        TaskChangeKeeps(s, e.task, s.tasks[e.task].(prompt := None, output := None, payloadAvailable := false));
      }
    } else if e.call in s.calls {
      var phase := s.calls[e.call].phase;
      match e
      case Finds(call, fails) => if phase.Finding? { FindKeeps(s, call, fails); }
      case Inserts(call, fault) => if phase.Inserting? { InsertKeeps(s, call, fault); }
      case Rereads(call, fails) => if phase.Rereading? { RereadKeeps(s, call, fails); }
      case Dispatches(call) => if phase.Owning? { DispatchKeeps(s, call); }
      case Persists(call, now, fault) => if phase.Persisting? { PersistKeeps(s, call, now, fault); }
      case _ => ReturnKeeps(s, e);
    }
  }

  lemma FindKeeps(s: State, call: nat, fails: bool)
    requires Inv(s) && call in s.calls && s.calls[call].phase.Finding?
    ensures Inv(Find(s, call, fails)) && Find(s, call, fails).tasks == s.tasks
  {
    hide FingerprintOf, Inv;
    InsertingIsNew(s, call);
    if !fails && KeyTaken(s.tasks, s.calls[call].organizationId, s.calls[call].request.requestId) {
      ResolveKeeps(s, call);
    } else {
      PhaseKeeps(s, call, if fails then Failed else Inserting);
    }
  }

  lemma RereadKeeps(s: State, call: nat, fails: bool)
    requires Inv(s) && call in s.calls && s.calls[call].phase.Rereading?
    ensures Inv(Reread(s, call, fails)) && Reread(s, call, fails).tasks == s.tasks
  {
    hide FingerprintOf, Inv;
    InsertingIsNew(s, call);
    if fails || !KeyTaken(s.tasks, s.calls[call].organizationId, s.calls[call].request.requestId) {
      PhaseKeeps(s, call, Failed);
    } else {
      ResolveKeeps(s, call);
    }
  }

  lemma ReturnKeeps(s: State, e: Event)
    requires Inv(s) && (e.DispatchReturns? || e.DispatchThrows? || e.Crashes?) && e.call in s.calls
    ensures Inv(Step(s, e)) && Step(s, e).tasks == s.tasks
  {
    hide FingerprintOf, KeysUnique, CreatorsUnique;
    var c := s.calls[e.call];
    assert GoodCall(s, e.call, c);
    if e.Crashes? || c.phase.Awaiting? {
      PhaseKeeps(s, e.call, Step(s, e).calls[e.call].phase);
    }
  }

  lemma {:induction false} RunKeeps(s: State, events: seq<Event>)
    requires Inv(s)
    ensures Inv(Run(s, events)) && TasksKept(s.tasks, Run(s, events).tasks)
    decreases |events|
  {
    hide Step, Inv;
    if events != [] {
      StepKeeps(s, events[0]);
      RunKeeps(Step(s, events[0]), events[1..]);
    }
  }

  lemma {:induction false} RunConcat(s: State, xs: seq<Event>, ys: seq<Event>)
    ensures Run(s, xs + ys) == Run(Run(s, xs), ys)
    decreases |xs|
  {
    hide Step;
    if xs == [] {
      assert xs + ys == ys;
    } else {
      assert (xs + ys)[1..] == xs[1..] + ys;
      RunConcat(Step(s, xs[0]), xs[1..], ys);
    }
  }

  // ---- Main results over every run ----

  /** For one organization and request id: one row, one dispatch, one terminal write. */
  lemma OneRow(events: seq<Event>, x: nat, y: nat)
    requires var t := Run(INIT, events).tasks;
             x in t && y in t && Matches(t[x], t[y].organizationId, t[y].requestId)
    ensures x == y
  {
    hide Step;
    RunKeeps(INIT, events);
  }

  ghost predicate SameRequest(s: State, x: nat, y: nat) {
    && x in s.calls && y in s.calls && s.calls[x].organizationId == s.calls[y].organizationId
    && s.calls[x].request.requestId == s.calls[y].request.requestId
  }

  lemma OneDispatch(events: seq<Event>, i: nat, j: nat)
    requires var s := Run(INIT, events);
             i < |s.dispatches| && j < |s.dispatches| && SameRequest(s, s.dispatches[i].call, s.dispatches[j].call)
    ensures i == j
  {
    hide Step, FingerprintOf;
    RunKeeps(INIT, events);
    var s := Run(INIT, events);
    assert GoodDispatch(s, s.dispatches[i]) && GoodDispatch(s, s.dispatches[j]);
  }

  /** A terminal status is written at most once, by the call that owns the dispatch, and is final. */
  lemma OneTerminalWrite(before: seq<Event>, after: seq<Event>, i: nat, j: nat)
    requires var s := Run(INIT, before);
             i < |s.writes| && j < |s.writes| && SameRequest(s, s.writes[i].call, s.writes[j].call)
    ensures i == j
    ensures var w, z := Run(INIT, before).writes[i], Run(INIT, before + after).tasks;
            w.task in z && z[w.task].status == w.status && z[w.task].creator == w.call
  {
    hide Step, FingerprintOf;
    RunKeeps(INIT, before);
    RunConcat(INIT, before, after);
    RunKeeps(Run(INIT, before), after);
    var s := Run(INIT, before);
    assert GoodWrite(s, s.writes[i]) && GoodWrite(s, s.writes[j]);
  }

  /** All accepted callers of one request id are given the same task and asked for the same thing. */
  lemma SameTask(events: seq<Event>, x: nat, y: nat)
    requires var s := Run(INIT, events);
             SameRequest(s, x, y) && s.calls[x].phase.Answered? && s.calls[y].phase.Answered?
    ensures var s := Run(INIT, events);
            && s.calls[x].phase.task == s.calls[y].phase.task
            && RequestFingerprint.SameContent(s.calls[x].request.content, s.calls[y].request.content)
  {
    hide Step, FingerprintOf;
    RunKeeps(INIT, events);
    var s := Run(INIT, events);
    assert GoodCall(s, x, s.calls[x]) && GoodCall(s, y, s.calls[y]);
    SameFingerprint(s.calls[x].request, s.calls[y].request);
  }

  lemma SameFingerprint(x: Request, y: Request)
    ensures FingerprintOf(x) == FingerprintOf(y) <==> RequestFingerprint.SameContent(x.content, y.content)
  {
    RequestFingerprint.FingerprintExactly(x.content, y.content);
  }

  lemma OnlyItsFingerprint(s: State, id: nat, call: nat)
    requires Inv(s) && id in s.tasks && call in s.calls
    requires Matches(s.tasks[id], s.calls[call].organizationId, s.calls[call].request.requestId)
    requires s.tasks[id].fingerprint != FingerprintOf(s.calls[call].request)
    ensures !s.calls[call].phase.Answered? && Undispatched(s, call)
  {
    hide FingerprintOf, GoodWrite, CreatorsUnique;
    assert GoodCall(s, call, s.calls[call]);
    forall i | 0 <= i < |s.dispatches| ensures s.dispatches[i].call != call {
      assert GoodDispatch(s, s.dispatches[i]);
    }
  }

  /** Once a request id belongs to a task, a caller with another fingerprint is neither accepted nor
      dispatched, in any continuation. */
  lemma OtherFingerprintRejected(before: seq<Event>, after: seq<Event>, id: nat, call: nat)
    requires id in Run(INIT, before).tasks
    requires var t, s := Run(INIT, before).tasks[id], Run(INIT, before + after);
             call in s.calls && Matches(t, s.calls[call].organizationId, s.calls[call].request.requestId)
             && t.fingerprint != FingerprintOf(s.calls[call].request)
    ensures var s := Run(INIT, before + after); !s.calls[call].phase.Answered? && Undispatched(s, call)
  {
    hide Step, FingerprintOf, GoodCall, GoodDispatch, GoodWrite;
    RunKeeps(INIT, before);
    RunConcat(INIT, before, after);
    RunKeeps(Run(INIT, before), after);
    var s := Run(INIT, before + after);
    OnlyItsFingerprint(s, id, call);
  }

  /** A payload that was deleted before the terminal write is never written back. */
  lemma ErasedStaysErased(before: seq<Event>, after: seq<Event>, id: nat)
    requires id in Run(INIT, before).tasks && Erased(Run(INIT, before).tasks[id])
    ensures id in Run(INIT, before + after).tasks && Erased(Run(INIT, before + after).tasks[id])
  {
    hide Step;
    RunKeeps(INIT, before);
    RunConcat(INIT, before, after);
    RunKeeps(Run(INIT, before), after);
  }

  // ---- What an undisturbed call does ----

  function Undisturbed(call: nat, organizationId: string, r: Request, id: nat, expiresAt: int): seq<Event> {
    [Submits(call, organizationId, r, id, expiresAt), Finds(call, false), Inserts(call, NoFault), Dispatches(call)]
  }

  lemma RunFour(s: State, e: seq<Event>)
    requires |e| == 4
    ensures Run(s, e) == Step(Step(Step(Step(s, e[0]), e[1]), e[2]), e[3])
  {
    hide Step;
    var s1 := Step(s, e[0]);
    var s2 := Step(s1, e[1]);
    var s3 := Step(s2, e[2]);
    assert e[1..][1..] == e[2..] && e[2..][1..] == e[3..] && e[3..][1..] == [];
    assert Run(s1, e[1..]) == Run(s2, e[2..]);
    assert Run(s2, e[2..]) == Run(s3, e[3..]);
    assert Run(s3, e[3..]) == Step(s3, e[3]);
  }

  /** A call on its own dispatches exactly when its request id is free; otherwise it is answered with
      the existing task when the fingerprints agree and refused when they do not. A dispatched request is on
      record, in full and unanswered. */
  lemma DispatchesExactlyWhenFree(s: State, call: nat, org: string, r: Request, id: nat, expiresAt: int)
    requires Inv(s) && call !in s.calls && id !in s.tasks
    ensures var z := Run(s, Undisturbed(call, org, r, id, expiresAt));
            && call in z.calls
            && (if !KeyTaken(s.tasks, org, r.requestId)
                then && z.dispatches == s.dispatches + [Dispatch(call, id)] && z.calls[call].phase == Awaiting(id)
                     && z.tasks == s.tasks[id := Task(org, r.requestId, FingerprintOf(r), DISPATCHING, call,
                                                      Some(r.content.prompt), None, true, expiresAt)]
                else && z.dispatches == s.dispatches && z.tasks == s.tasks
                     && forall t | t in s.tasks && Matches(s.tasks[t], org, r.requestId) ::
                          z.calls[call].phase == if s.tasks[t].fingerprint == FingerprintOf(r) then Answered(t) else Conflict)
  {
    hide FingerprintOf, GoodCall, GoodDispatch, GoodWrite;
    var e := Undisturbed(call, org, r, id, expiresAt);
    RunFour(s, e);
    var s1 := Step(s, e[0]);
    assert s1.tasks == s.tasks && s1.calls[call] == Call(org, r, id, expiresAt, Finding);
    var s2 := Step(s1, e[1]);
    var s3 := Step(s2, e[2]);
  }

  // ---- What becomes of a dispatch ----

  /** What the end of a dispatch says about the task. */
  predicate Concludes(e: Event, status: Status, output: Option<string>) {
    match e
    case DispatchReturns(_, told, text) =>
      && output == text
      && (status == COMPLETED <==> told == Governance.SUCCEEDED)
      && (status == HUMAN_GATE <==> told == Governance.POLICY_BLOCKED)
      && (status == FAILED <==> told != Governance.SUCCEEDED && told != Governance.POLICY_BLOCKED)
    case DispatchThrows(_) => status == FAILED && output == None
    case _ => false
  }

  lemma RunTwo(s: State, a: Event, b: Event)
    ensures Run(s, [a, b]) == Step(Step(s, a), b)
  {
    hide Step;
    assert [a, b][1..] == [b] && [b][1..] == [];
    assert Run(Step(s, a), [b]) == Step(Step(s, a), b);
  }

  /** A dispatch that is left to end is recorded as it ended: the row gets the status that belongs to the end and
      the output, unless its payload was deleted or has expired, when prompt and output are erased instead; no
      other row changes, and the caller is given the task. */
  lemma DispatchIsRecorded(s: State, e: Event, id: nat, status: Status, output: Option<string>, now: int)
    requires (e.DispatchReturns? || e.DispatchThrows?) && Concludes(e, status, output)
    requires e.call in s.calls && s.calls[e.call].phase == Awaiting(id)
    requires id in s.tasks && s.tasks[id].status == DISPATCHING && s.tasks[id].organizationId == s.calls[e.call].organizationId
    ensures var z, t := Run(s, [e, Persists(e.call, now, NoFault)]), s.tasks[id];
            && e.call in z.calls && z.calls[e.call].phase == Answered(id) && z.dispatches == s.dispatches
            && z.writes == s.writes + [Write(e.call, id, status)]
            && z.tasks == s.tasks[id :=
                 if t.payloadAvailable && now < t.payloadExpiresAt then t.(status := status, output := output)
                 else t.(status := status, prompt := None, output := None, payloadAvailable := false)]
  {
    RunTwo(s, e, Persists(e.call, now, NoFault));
    hide Find, Insert, Reread;
    var s1 := Step(s, e);
    assert s1.calls[e.call].phase == Persisting(id, status, output) && s1.tasks == s.tasks && s1.writes == s.writes;
  }

  /** The call is about to write the status, or has written it. */
  ghost predicate Settling(s: State, call: nat, status: Status) {
    || (call in s.calls && s.calls[call].phase.Persisting? && s.calls[call].phase.status == status)
    || exists i | 0 <= i < |s.writes| :: s.writes[i].call == call && s.writes[i].status == status
  }

  /** The event ends a dispatch of the call with that status. */
  predicate Causes(e: Event, call: nat, status: Status) {
    && !e.PayloadDeleted? && e.call == call
    && (e.DispatchReturns? || e.DispatchThrows?) && Concludes(e, status, if e.DispatchReturns? then e.output else None)
  }

  lemma StepSettles(s: State, e: Event, call: nat, status: Status)
    requires Settling(Step(s, e), call, status)
    ensures Settling(s, call, status) || Causes(e, call, status)
  {
    hide FingerprintOf, KeyTaken, Settled;
    var z := Step(s, e);
    if z.writes != s.writes {
      assert e.Persists? && e.call in s.calls && s.calls[e.call].phase.Persisting?;
    }
  }

  lemma {:induction false} SettlingHasCause(s: State, events: seq<Event>, call: nat, status: Status)
    requires Settling(Run(s, events), call, status)
    ensures Settling(s, call, status) || exists e | e in events :: Causes(e, call, status)
    decreases |events|
  {
    hide Step, Settling;
    if events != [] {
      SettlingHasCause(Step(s, events[0]), events[1..], call, status);
      if Settling(Step(s, events[0]), call, status) {
        StepSettles(s, events[0], call, status);
      }
    }
  }

  /** In every run a task is completed only if its execution succeeded, handed to a human only if policy blocked
      it, and failed only if the dispatch threw or ended otherwise. */
  lemma WritesAreTruthful(events: seq<Event>, i: nat)
    requires i < |Run(INIT, events).writes|
    ensures var w := Run(INIT, events).writes[i]; exists e | e in events :: Causes(e, w.call, w.status)
  {
    hide Step;
    var w := Run(INIT, events).writes[i];
    assert Settling(Run(INIT, events), w.call, w.status);
    SettlingHasCause(INIT, events, w.call, w.status);
  }
}
