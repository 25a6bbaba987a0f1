/** The cancellation registry: active executions, and tombstones that catch executions which register
    after their workflow was cancelled. `Map`s are sequences in insertion order; an entry's serial number
    stands for the identity of the object. */
module Cancellation {
  import opened Strings
  import opened Sets

  const TTL := 3600000
  const MAX_TOMBSTONES := 1000
  const MAX_REPORTED := 100

  // ---- Data ----

  /** `throws` says what the callback does if it is called. */
  datatype Registration = Registration(
    organizationId: string, workflowRunId: string, workflowStepRunId: string, executionId: string, hasCallback: bool, throws: bool)

  datatype Entry = Entry(serial: nat, input: Registration, cancelRequested: bool)

  datatype Tombstone = Tombstone(key: string, expiresAt: int)

  datatype Workflow = Workflow(organizationId: string, workflowRunId: string)

  /** One call of an execution's cancel callback. */
  datatype Signal = Signal(serial: nat, workflow: Workflow)

  /** `signals` and `cancelled` record what happened; `latest` is the last clock reading. */
  datatype State = State(
    active: seq<Entry>, tombstones: seq<Tombstone>, next: nat, signals: seq<Signal>, cancelled: set<Workflow>, latest: int)

  function Init(now: int): State {
    State([], [], 0, [], {}, now)
  }

  function WorkflowKey(w: Workflow): string {
    w.organizationId + ":" + w.workflowRunId
  }

  function WorkflowOf(r: Registration): Workflow {
    Workflow(r.organizationId, r.workflowRunId)
  }

  function ExecutionKey(r: Registration): string {
    WorkflowKey(WorkflowOf(r)) + ":" + r.workflowStepRunId + ":" + r.executionId
  }

  predicate ValidId(s: string) { 0 < |s| <= 512 }

  predicate ValidWorkflow(w: Workflow) { ValidId(w.organizationId) && ValidId(w.workflowRunId) }

  predicate ValidRegistration(r: Registration) {
    ValidWorkflow(WorkflowOf(r)) && ValidId(r.workflowStepRunId) && ValidId(r.executionId) && r.hasCallback
  }

  // ---- Filtering ----

  function Keep<T>(s: seq<T>, f: T -> bool): seq<T> {
    if s == [] then []
    else Keep(s[..|s| - 1], f) + if f(s[|s| - 1]) then [s[|s| - 1]] else []
  }

  lemma {:induction false} KeepMember<T>(s: seq<T>, f: T -> bool)
    ensures forall x :: x in Keep(s, f) <==> x in s && f(x)
    ensures |Keep(s, f)| <= |s|
  {
    if s != [] {
      KeepMember(s[..|s| - 1], f);
      assert s == s[..|s| - 1] + [s[|s| - 1]];
    }
  }

  // ---- Tombstones ----

  function Prune(ts: seq<Tombstone>, now: int): seq<Tombstone> {
    Keep(ts, (t: Tombstone) => t.expiresAt > now)
  }

  function Remove(ts: seq<Tombstone>, key: string): seq<Tombstone> {
    Keep(ts, (t: Tombstone) => t.key != key)
  }

  function Evict(ts: seq<Tombstone>): seq<Tombstone>
    decreases |ts|
  {
    if |ts| > MAX_TOMBSTONES then Evict(ts[1..]) else ts
  }

  /** `set` on a key that was just deleted: the tombstone moves to the end. */
  function Arm(ts: seq<Tombstone>, key: string, expiresAt: int): seq<Tombstone> {
    Evict(Remove(ts, key) + [Tombstone(key, expiresAt)])
  }

  predicate Live(ts: seq<Tombstone>, key: string, now: int) {
    exists t | t in ts :: t.key == key && t.expiresAt > now
  }

  predicate UniqueKeys(ts: seq<Tombstone>) {
    forall i, j | 0 <= i < j < |ts| :: ts[i].key != ts[j].key
  }

  predicate Ordered(ts: seq<Tombstone>) {
    forall i, j | 0 <= i < j < |ts| :: ts[i].expiresAt <= ts[j].expiresAt
  }

  predicate NoneAfter(ts: seq<Tombstone>, time: int) {
    forall t | t in ts :: t.expiresAt <= time
  }

  /** Insertion order is expiry order, keys are unique. */
  predicate Sound(ts: seq<Tombstone>, latest: int) {
    UniqueKeys(ts) && Ordered(ts) && NoneAfter(ts, latest + TTL)
  }

  lemma {:induction false} KeepSound(ts: seq<Tombstone>, f: Tombstone -> bool)
    requires UniqueKeys(ts) && Ordered(ts)
    ensures UniqueKeys(Keep(ts, f)) && Ordered(Keep(ts, f))
  {
    if ts != [] {
      var init, last := ts[..|ts| - 1], ts[|ts| - 1];
      KeepSound(init, f);
      KeepMember(init, f);
      assert forall t | t in init :: t.key != last.key && t.expiresAt <= last.expiresAt;
      if f(last) {
        AppendInOrder(Keep(init, f), last);
      } else {
        assert Keep(ts, f) == Keep(init, f);
      }
    }
  }

  lemma AppendInOrder(ts: seq<Tombstone>, last: Tombstone)
    requires UniqueKeys(ts) && Ordered(ts) && forall t | t in ts :: t.key != last.key && t.expiresAt <= last.expiresAt
    ensures UniqueKeys(ts + [last]) && Ordered(ts + [last])
  {
    assert forall i | 0 <= i < |ts| :: ts[i] in ts;
  }

  lemma {:induction false} EvictSound(ts: seq<Tombstone>, latest: int)
    requires Sound(ts, latest)
    ensures Sound(Evict(ts), latest) && |Evict(ts)| <= MAX_TOMBSTONES
    decreases |ts|
  {
    if |ts| > MAX_TOMBSTONES {
      var rest := ts[1..];
      assert forall i | 0 <= i < |rest| :: rest[i] == ts[i + 1];
      EvictSound(rest, latest);
    }
  }

  lemma PruneSound(ts: seq<Tombstone>, now: int, latest: int)
    requires Sound(ts, latest) && latest <= now
    ensures Sound(Prune(ts, now), now) && |Prune(ts, now)| <= |ts|
    ensures forall t | t in Prune(ts, now) :: t in ts
  {
    KeepSound(ts, (t: Tombstone) => t.expiresAt > now);
    KeepMember(ts, (t: Tombstone) => t.expiresAt > now);
  }

  lemma AppendSound(ts: seq<Tombstone>, key: string, now: int)
    requires Sound(ts, now) && forall t | t in ts :: t.key != key
    ensures Sound(ts + [Tombstone(key, now + TTL)], now)
  {
  }

  /** Removing a key and setting it anew keeps order and uniqueness, before any eviction. */
  lemma ResetSound(ts: seq<Tombstone>, key: string, now: int)
    requires Sound(ts, now)
    ensures Sound(Remove(ts, key) + [Tombstone(key, now + TTL)], now)
  {
    KeepSound(ts, (t: Tombstone) => t.key != key);
    KeepMember(ts, (t: Tombstone) => t.key != key);
    hide Keep;
    AppendSound(Remove(ts, key), key, now);
  }

  lemma ArmSound(ts: seq<Tombstone>, key: string, now: int)
    requires Sound(ts, now)
    ensures Sound(Arm(ts, key, now + TTL), now) && |Arm(ts, key, now + TTL)| <= MAX_TOMBSTONES
  {
    hide Evict, Sound, Remove;
    ResetSound(ts, key, now);
    EvictSound(Remove(ts, key) + [Tombstone(key, now + TTL)], now);
  }

  lemma ArmMembers(ts: seq<Tombstone>, key: string, expiresAt: int)
    ensures forall t | t in Arm(ts, key, expiresAt) :: t in ts || t.key == key
  {
    KeepMember(ts, (t: Tombstone) => t.key != key);
    EvictKeepsNewest(Remove(ts, key) + [Tombstone(key, expiresAt)]);
  }

  lemma {:induction false} EvictKeepsNewest(ts: seq<Tombstone>)
    ensures |Evict(ts)| == if |ts| > MAX_TOMBSTONES then MAX_TOMBSTONES else |ts|
    ensures Evict(ts) == ts[|ts| - |Evict(ts)|..]
    decreases |ts|
  {
    if |ts| > MAX_TOMBSTONES {
      var rest := ts[1..];
      EvictKeepsNewest(rest);
      assert ts[|ts| - |Evict(ts)|..] == rest[|rest| - |Evict(ts)|..];
    }
  }

  /** Eviction keeps the newest tombstones, and what it drops expires no later than what it keeps. */
  lemma EvictDropsEarliest(ts: seq<Tombstone>, i: nat, j: nat)
    requires Ordered(ts) && i < |ts| - |Evict(ts)| && j < |Evict(ts)|
    ensures ts[i].expiresAt <= Evict(ts)[j].expiresAt
  {
    hide Evict;
    EvictKeepsNewest(ts);
    assert Evict(ts)[j] == ts[|ts| - |Evict(ts)| + j];
  }

  // ---- Armed tombstones ----

  /** `key` has a tombstone good until `deadline`, and only keys in `others` were inserted after it. */
  predicate Armed(ts: seq<Tombstone>, key: string, deadline: int, others: set<string>)
    decreases |ts|
  {
    ts != []
    && var last := ts[|ts| - 1];
       || (last.key == key && last.expiresAt >= deadline)
       || (last.key in others && Armed(ts[..|ts| - 1], key, deadline, others))
  }

  lemma {:induction false} ArmedIsLive(ts: seq<Tombstone>, key: string, deadline: int, others: set<string>, now: int)
    requires Armed(ts, key, deadline, others) && now < deadline
    ensures Live(ts, key, now)
    decreases |ts|
  {
    var last := ts[|ts| - 1];
    if last.key == key && last.expiresAt >= deadline {
      assert last in ts;
    } else {
      ArmedIsLive(ts[..|ts| - 1], key, deadline, others, now);
    }
  }

  /** A filter that spares the tombstone of `key` leaves it armed. */
  lemma {:induction false} KeepArmed(ts: seq<Tombstone>, f: Tombstone -> bool, key: string, deadline: int, others: set<string>)
    requires Armed(ts, key, deadline, others)
    requires forall t: Tombstone | t.key == key && t.expiresAt >= deadline :: f(t)
    ensures Armed(Keep(ts, f), key, deadline, others)
    decreases |ts|
  {
    var init, last := ts[..|ts| - 1], ts[|ts| - 1];
    var k := Keep(init, f);
    if last.key == key && last.expiresAt >= deadline {
      assert Keep(ts, f) == k + [last];
    } else {
      KeepArmed(init, f, key, deadline, others);
      if f(last) {
        assert (k + [last])[..|k|] == k;
      } else {
        assert Keep(ts, f) == k;
      }
    }
  }

  lemma {:induction false} MoreOthers(ts: seq<Tombstone>, key: string, deadline: int, others: set<string>, more: set<string>)
    requires Armed(ts, key, deadline, others) && others <= more
    ensures Armed(ts, key, deadline, more)
    decreases |ts|
  {
    var last := ts[|ts| - 1];
    if !(last.key == key && last.expiresAt >= deadline) {
      MoreOthers(ts[..|ts| - 1], key, deadline, others, more);
    }
  }

  /** Dropping the oldest tombstone cannot hit `key` while more tombstones are stored than other keys
      came after it. */
  lemma {:induction false} DropArmed(ts: seq<Tombstone>, key: string, deadline: int, others: set<string>)
    requires Armed(ts, key, deadline, others) && UniqueKeys(ts) && |ts| > |others| + 1
    ensures Armed(ts[1..], key, deadline, others)
    decreases |ts|
  {
    var n := |ts| - 1;
    var last, rest := ts[n], ts[1..];
    assert rest[|rest| - 1] == last && rest[..|rest| - 1] == ts[..n][1..];
    if !(last.key == key && last.expiresAt >= deadline) {
      var fewer := others - {last.key};
      WithoutLast(ts[..n], key, deadline, others, last.key);
      assert others == fewer + {last.key};
      DropArmed(ts[..n], key, deadline, fewer);
      MoreOthers(ts[..n][1..], key, deadline, fewer, others);
    }
  }

  lemma {:induction false} WithoutLast(ts: seq<Tombstone>, key: string, deadline: int, others: set<string>, k: string)
    requires Armed(ts, key, deadline, others) && forall t | t in ts :: t.key != k
    ensures Armed(ts, key, deadline, others - {k})
    decreases |ts|
  {
    var last := ts[|ts| - 1];
    assert last in ts;
    if !(last.key == key && last.expiresAt >= deadline) {
      WithoutLast(ts[..|ts| - 1], key, deadline, others, k);
    }
  }

  lemma {:induction false} EvictArmed(ts: seq<Tombstone>, key: string, deadline: int, others: set<string>)
    requires Armed(ts, key, deadline, others) && UniqueKeys(ts) && |others| < MAX_TOMBSTONES
    ensures Armed(Evict(ts), key, deadline, others)
    decreases |ts|
  {
    if |ts| > MAX_TOMBSTONES {
      DropArmed(ts, key, deadline, others);
      assert forall i | 0 <= i < |ts| - 1 :: ts[1..][i] == ts[i + 1];
      EvictArmed(ts[1..], key, deadline, others);
    }
  }

  /** Arming another key leaves `key` armed, with one more key behind it. */
  lemma ArmOther(ts: seq<Tombstone>, key: string, deadline: int, others: set<string>, other: string, now: int)
    requires Armed(ts, key, deadline, others) && Sound(ts, now) && other != key && |others + {other}| < MAX_TOMBSTONES
    ensures Armed(Arm(ts, other, now + TTL), key, deadline, others + {other})
  {
    hide Evict;
    var kept := Remove(ts, other);
    var all := kept + [Tombstone(other, now + TTL)];
    KeepArmed(ts, (t: Tombstone) => t.key != other, key, deadline, others);
    MoreOthers(kept, key, deadline, others, others + {other});
    assert all[..|all| - 1] == kept;
    ResetSound(ts, other, now);
    EvictArmed(all, key, deadline, others + {other});
  }

  /** Cancelling a workflow arms its own key, whatever was there before. */
  lemma ArmSelf(ts: seq<Tombstone>, key: string, others: set<string>, now: int)
    requires Sound(ts, now) && |others| < MAX_TOMBSTONES
    ensures Armed(Arm(ts, key, now + TTL), key, now + TTL, others)
  {
    hide Evict;
    ResetSound(ts, key, now);
    EvictArmed(Remove(ts, key) + [Tombstone(key, now + TTL)], key, now + TTL, others);
  }

  lemma {:induction false} LaterDeadline(ts: seq<Tombstone>, key: string, deadline: int, earlier: int, others: set<string>)
    requires Armed(ts, key, deadline, others) && earlier <= deadline
    ensures Armed(ts, key, earlier, others)
    decreases |ts|
  {
    var last := ts[|ts| - 1];
    if !(last.key == key && last.expiresAt >= deadline) {
      LaterDeadline(ts[..|ts| - 1], key, deadline, earlier, others);
    }
  }

  // ---- Active executions ----

  predicate HasKey(active: seq<Entry>, key: string) {
    exists e | e in active :: ExecutionKey(e.input) == key
  }

  predicate HasSerial(active: seq<Entry>, serial: nat) {
    exists e | e in active :: e.serial == serial
  }

  function Matching(active: seq<Entry>, w: Workflow): seq<Entry> {
    Keep(active, (e: Entry) => WorkflowOf(e.input) == w)
  }

  /** The matches whose callback a cancellation calls. */
  function Unsignalled(matches: seq<Entry>): seq<Entry> {
    Keep(matches, (e: Entry) => !e.cancelRequested)
  }

  function Failing(entries: seq<Entry>): seq<Entry> {
    Keep(entries, (e: Entry) => e.input.throws)
  }

  function Succeeding(entries: seq<Entry>): seq<Entry> {
    Keep(entries, (e: Entry) => !e.input.throws)
  }

  function ExecutionIds(entries: seq<Entry>): seq<string> {
    seq(|entries|, i requires 0 <= i < |entries| => entries[i].input.executionId)
  }

  function SignalsOf(entries: seq<Entry>): seq<Signal> {
    seq(|entries|, i requires 0 <= i < |entries| => Signal(entries[i].serial, WorkflowOf(entries[i].input)))
  }

  function MarkOne(e: Entry, w: Workflow): Entry {
    if WorkflowOf(e.input) == w then e.(cancelRequested := true) else e
  }

  /** Every execution of the workflow marked as cancelled. */
  function Marked(active: seq<Entry>, w: Workflow): seq<Entry> {
    seq(|active|, i requires 0 <= i < |active| => MarkOne(active[i], w))
  }

  // ---- Operations ----

  datatype Outcome = Invalid | Duplicate | Registered(serial: nat)

  function RegisterOutcome(s: State, r: Registration): Outcome {
    if !ValidRegistration(r) then Invalid
    else if HasKey(s.active, ExecutionKey(r)) then Duplicate
    else Registered(s.next)
  }

  /** The three clock readings of one call: pruning, pruning again, comparing the expiry. */
  function Register(s: State, r: Registration, t1: int, t2: int, t3: int): State {
    match RegisterOutcome(s, r)
    case Invalid => s
    case Duplicate => s.(tombstones := Prune(s.tombstones, t1), latest := t1)
    case Registered(serial) =>
      var ts := Prune(Prune(s.tombstones, t1), t2);
      var hit := Live(ts, WorkflowKey(WorkflowOf(r)), t3);
      s.(active := s.active + [Entry(serial, r, hit)], tombstones := ts, next := s.next + 1,
         signals := s.signals + if hit then [Signal(serial, WorkflowOf(r))] else [], latest := t3)
  }

  function CancelWorkflow(s: State, w: Workflow, t1: int, t2: int): State {
    if !ValidWorkflow(w) then s
    else
      s.(tombstones := Arm(Prune(s.tombstones, t1), WorkflowKey(w), t2 + TTL),
         active := Marked(s.active, w),
         signals := s.signals + SignalsOf(Unsignalled(Matching(s.active, w))),
         cancelled := s.cancelled + {w}, latest := t2)
  }

  function Close(s: State, serial: nat): State {
    s.(active := Keep(s.active, (e: Entry) => e.serial != serial))
  }

  function Ask(s: State, t1: int, t2: int): State {
    s.(tombstones := Prune(s.tombstones, t1), latest := t2)
  }

  datatype Report = Report(matched: nat, attempts: nat, failures: nat, ids: seq<string>)

  function ReportOf(matches: seq<Entry>): Report {
    var u := Unsignalled(matches);
    var ok := ExecutionIds(Succeeding(u));
    Report(|matches|, |u|, |Failing(u)|, if |ok| > MAX_REPORTED then ok[..MAX_REPORTED] else ok)
  }

  // ---- Runs ----

  datatype Event =
    | Registers(input: Registration, t1: int, t2: int, t3: int)
    | Cancels(workflow: Workflow, t1: int, t2: int)
    | Closes(serial: nat)
    | Asks(workflow: Workflow, t1: int, t2: int)

  /** The clock never goes back: an event whose readings would is not enabled. */
  function Step(s: State, e: Event): State {
    match e
    case Registers(r, t1, t2, t3) => if s.latest <= t1 <= t2 <= t3 then Register(s, r, t1, t2, t3) else s
    case Cancels(w, t1, t2) => if s.latest <= t1 <= t2 then CancelWorkflow(s, w, t1, t2) else s
    case Closes(serial) => Close(s, serial)
    case Asks(_, t1, t2) => if s.latest <= t1 <= t2 then Ask(s, t1, t2) else s
  }

  function Run(s: State, events: seq<Event>): State
    decreases |events|
  {
    if events == [] then s else Run(Step(s, events[0]), events[1..])
  }

  // ---- The invariant ----

  ghost predicate EntriesOk(active: seq<Entry>, next: nat) {
    && (forall i, j | 0 <= i < |active| && 0 <= j < |active| && active[i].serial == active[j].serial :: i == j)
    && (forall i, j | 0 <= i < |active| && 0 <= j < |active| && ExecutionKey(active[i].input) == ExecutionKey(active[j].input) :: i == j)
    && (forall e | e in active :: e.serial < next && ValidRegistration(e.input))
  }

  predicate Signalled(signals: seq<Signal>, serial: nat) {
    exists x | x in signals :: x.serial == serial
  }

  /** A callback has been called exactly for the entries that say so, and never twice. */
  ghost predicate SignalsOk(active: seq<Entry>, signals: seq<Signal>, next: nat) {
    && (forall i, j | 0 <= i < |signals| && 0 <= j < |signals| && signals[i].serial == signals[j].serial :: i == j)
    && (forall x | x in signals :: x.serial < next)
    && (forall e | e in active :: e.cancelRequested <==> Signalled(signals, e.serial))
  }

  ghost predicate SomeCancelled(cancelled: set<Workflow>, key: string) {
    exists w | w in cancelled :: WorkflowKey(w) == key
  }

  /** Tombstones and signals only stem from cancellations. */
  ghost predicate Caused(s: State) {
    && (forall t | t in s.tombstones :: SomeCancelled(s.cancelled, t.key))
    && (forall x | x in s.signals :: SomeCancelled(s.cancelled, WorkflowKey(x.workflow)))
  }

  ghost predicate Inv(s: State) {
    && Sound(s.tombstones, s.latest) && |s.tombstones| <= MAX_TOMBSTONES
    && EntriesOk(s.active, s.next) && SignalsOk(s.active, s.signals, s.next) && Caused(s)
  }

  // ---- Every step keeps the invariant ----

  lemma AppendEntry(active: seq<Entry>, last: Entry, next: nat)
    requires EntriesOk(active, next) && last.serial < next && ValidRegistration(last.input)
    requires forall e | e in active :: e.serial != last.serial && ExecutionKey(e.input) != ExecutionKey(last.input)
    ensures EntriesOk(active + [last], next)
  {
    hide ExecutionKey, ValidRegistration;
    assert forall i | 0 <= i < |active| :: active[i] in active;
  }

  lemma LastEntry(active: seq<Entry>, next: nat)
    requires EntriesOk(active, next) && active != []
    ensures var init, last := active[..|active| - 1], active[|active| - 1];
            && EntriesOk(init, next) && last.serial < next && ValidRegistration(last.input)
            && forall e | e in init :: e.serial != last.serial && ExecutionKey(e.input) != ExecutionKey(last.input)
  {
    hide ExecutionKey, ValidRegistration;
    var init := active[..|active| - 1];
    assert active[|active| - 1] in active;
    assert forall e | e in init :: e in active;
  }

  lemma {:induction false} KeepEntries(active: seq<Entry>, f: Entry -> bool, next: nat)
    requires EntriesOk(active, next)
    ensures EntriesOk(Keep(active, f), next)
    decreases |active|
  {
    if active != [] {
      var init, last := active[..|active| - 1], active[|active| - 1];
      LastEntry(active, next);
      KeepEntries(init, f, next);
      KeepMember(init, f);
      hide EntriesOk, ExecutionKey, ValidRegistration;
      if f(last) {
        AppendEntry(Keep(init, f), last, next);
      } else {
        assert Keep(active, f) == Keep(init, f);
      }
    }
  }

  lemma AddEntry(active: seq<Entry>, next: nat, r: Registration, hit: bool)
    requires EntriesOk(active, next) && ValidRegistration(r) && !HasKey(active, ExecutionKey(r))
    ensures EntriesOk(active + [Entry(next, r, hit)], next + 1)
  {
  }

  lemma AddSignal(active: seq<Entry>, signals: seq<Signal>, next: nat, r: Registration, hit: bool)
    requires EntriesOk(active, next) && SignalsOk(active, signals, next)
    ensures SignalsOk(active + [Entry(next, r, hit)], signals + if hit then [Signal(next, WorkflowOf(r))] else [], next + 1)
  {
  }

  lemma RegisterKeeps(s: State, r: Registration, t1: int, t2: int, t3: int)
    requires Inv(s) && s.latest <= t1 <= t2 <= t3
    ensures Inv(Register(s, r, t1, t2, t3))
  {
    hide Prune, EntriesOk, SignalsOk, WorkflowKey, HasKey, ExecutionKey, ValidRegistration, Live;
    PruneSound(s.tombstones, t1, s.latest);
    PruneSound(Prune(s.tombstones, t1), t2, t1);
    var z := Register(s, r, t1, t2, t3);
    if RegisterOutcome(s, r).Registered? {
      var hit := Live(z.tombstones, WorkflowKey(WorkflowOf(r)), t3);
      AddEntry(s.active, s.next, r, hit);
      AddSignal(s.active, s.signals, s.next, r, hit);
      if hit {
        LiveIsThere(z.tombstones, WorkflowKey(WorkflowOf(r)), t3);
      }
      assert Sound(z.tombstones, t3);
    }
  }

  lemma LiveIsThere(ts: seq<Tombstone>, key: string, now: int)
    requires Live(ts, key, now)
    ensures exists t | t in ts :: t.key == key
  {
  }

  lemma MarkedOk(active: seq<Entry>, w: Workflow, next: nat)
    requires EntriesOk(active, next)
    ensures EntriesOk(Marked(active, w), next)
  {
    hide ExecutionKey, ValidRegistration;
    var m := Marked(active, w);
    assert forall i | 0 <= i < |active| :: m[i].serial == active[i].serial && m[i].input == active[i].input && active[i] in active;
  }

  /** The entries that a cancellation signals: exactly the unsignalled ones of the workflow. */
  lemma PendingExactly(active: seq<Entry>, w: Workflow, next: nat)
    requires EntriesOk(active, next)
    ensures var u := Unsignalled(Matching(active, w));
            && EntriesOk(u, next)
            && forall e :: e in u <==> e in active && WorkflowOf(e.input) == w && !e.cancelRequested
  {
    var m := Matching(active, w);
    KeepEntries(active, (e: Entry) => WorkflowOf(e.input) == w, next);
    KeepMember(active, (e: Entry) => WorkflowOf(e.input) == w);
    KeepEntries(m, (e: Entry) => !e.cancelRequested, next);
    KeepMember(m, (e: Entry) => !e.cancelRequested);
  }

  lemma SignalsOfMembers(u: seq<Entry>)
    ensures forall n: nat :: Signalled(SignalsOf(u), n) <==> HasSerial(u, n)
    ensures forall x | x in SignalsOf(u) :: exists e | e in u :: x == Signal(e.serial, WorkflowOf(e.input))
  {
    var ss := SignalsOf(u);
    assert forall i | 0 <= i < |u| :: ss[i] == Signal(u[i].serial, WorkflowOf(u[i].input)) && ss[i] in ss && u[i] in u;
  }

  lemma SignalledConcat(a: seq<Signal>, b: seq<Signal>, n: nat)
    ensures Signalled(a + b, n) <==> Signalled(a, n) || Signalled(b, n)
  {
  }

  lemma SignalsDistinct(active: seq<Entry>, signals: seq<Signal>, u: seq<Entry>, next: nat)
    requires SignalsOk(active, signals, next) && EntriesOk(u, next)
    requires forall e | e in u :: e in active && !e.cancelRequested
    ensures var all := signals + SignalsOf(u);
            && (forall i, j | 0 <= i < |all| && 0 <= j < |all| && all[i].serial == all[j].serial :: i == j)
            && forall x | x in all :: x.serial < next
  {
  }

  lemma MarkedSignals(active: seq<Entry>, signals: seq<Signal>, w: Workflow, next: nat)
    requires EntriesOk(active, next) && SignalsOk(active, signals, next)
    ensures SignalsOk(Marked(active, w), signals + SignalsOf(Unsignalled(Matching(active, w))), next)
  {
    hide ExecutionKey, ValidRegistration, Unsignalled, Matching;
    var u := Unsignalled(Matching(active, w));
    PendingExactly(active, w, next);
    SignalsDistinct(active, signals, u, next);
    SignalsOfMembers(u);
    var m, all := Marked(active, w), signals + SignalsOf(u);
    forall e | e in m ensures e.cancelRequested <==> Signalled(all, e.serial) {
      var i :| 0 <= i < |m| && m[i] == e;
      MarkedEntry(active, signals, u, w, next, active[i]);
      SignalledConcat(signals, SignalsOf(u), e.serial);
    }
  }

  lemma MarkedEntry(active: seq<Entry>, signals: seq<Signal>, u: seq<Entry>, w: Workflow, next: nat, a: Entry)
    requires EntriesOk(active, next) && SignalsOk(active, signals, next) && a in active
    requires forall e :: e in u <==> e in active && WorkflowOf(e.input) == w && !e.cancelRequested
    ensures MarkOne(a, w).cancelRequested <==> Signalled(signals, a.serial) || HasSerial(u, a.serial)
  {
  }

  lemma CancelCaused(s: State, w: Workflow, t1: int, t2: int)
    requires Inv(s) && ValidWorkflow(w) && s.latest <= t1 <= t2
    ensures Caused(CancelWorkflow(s, w, t1, t2))
  {
    hide Arm, Prune, EntriesOk, SignalsOk, WorkflowKey;
    var z := CancelWorkflow(s, w, t1, t2);
    PruneSound(s.tombstones, t1, s.latest);
    ArmMembers(Prune(s.tombstones, t1), WorkflowKey(w), t2 + TTL);
    MoreCancelled(s.cancelled, w);
    PendingExactly(s.active, w, s.next);
    var u := Unsignalled(Matching(s.active, w));
    SignalsOfMembers(u);
    forall x | x in z.signals ensures SomeCancelled(z.cancelled, WorkflowKey(x.workflow)) {
      assert x in s.signals || x in SignalsOf(u);
    }
  }

  lemma MoreCancelled(cancelled: set<Workflow>, w: Workflow)
    ensures SomeCancelled(cancelled + {w}, WorkflowKey(w))
    ensures forall k | SomeCancelled(cancelled, k) :: SomeCancelled(cancelled + {w}, k)
  {
  }

  lemma CancelKeeps(s: State, w: Workflow, t1: int, t2: int)
    requires Inv(s) && s.latest <= t1 <= t2
    ensures Inv(CancelWorkflow(s, w, t1, t2))
  {
    if ValidWorkflow(w) {
      CancelCaused(s, w, t1, t2);
      hide Arm, Prune, EntriesOk, SignalsOk, Caused, WorkflowKey, Sound;
      PruneSound(s.tombstones, t1, s.latest);
      LaterSound(Prune(s.tombstones, t1), t1, t2);
      ArmSound(Prune(s.tombstones, t1), WorkflowKey(w), t2);
      MarkedOk(s.active, w, s.next);
      MarkedSignals(s.active, s.signals, w, s.next);
    }
  }

  lemma LaterSound(ts: seq<Tombstone>, latest: int, later: int)
    requires Sound(ts, latest) && latest <= later
    ensures Sound(ts, later)
  {
  }

  lemma CloseKeeps(s: State, serial: nat)
    requires Inv(s)
    ensures Inv(Close(s, serial))
  {
    KeepEntries(s.active, (e: Entry) => e.serial != serial, s.next);
    KeepMember(s.active, (e: Entry) => e.serial != serial);
  }

  lemma AskKeeps(s: State, t1: int, t2: int)
    requires Inv(s) && s.latest <= t1 <= t2
    ensures Inv(Ask(s, t1, t2))
  {
    hide Prune;
    PruneSound(s.tombstones, t1, s.latest);
    LaterSound(Prune(s.tombstones, t1), t1, t2);
  }

  lemma StepKeeps(s: State, e: Event)
    requires Inv(s)
    ensures Inv(Step(s, e)) && s.latest <= Step(s, e).latest && s.cancelled <= Step(s, e).cancelled
  {
    hide Inv, Live, Prune, Arm;
    match e
    case Registers(r, t1, t2, t3) => if s.latest <= t1 <= t2 <= t3 { RegisterKeeps(s, r, t1, t2, t3); }
    case Cancels(w, t1, t2) => if s.latest <= t1 <= t2 { CancelKeeps(s, w, t1, t2); }
    case Closes(serial) => CloseKeeps(s, serial);
    case Asks(_, t1, t2) => if s.latest <= t1 <= t2 { AskKeeps(s, t1, t2); }
  }

  lemma {:induction false} RunKeeps(s: State, events: seq<Event>)
    requires Inv(s)
    ensures Inv(Run(s, events)) && s.latest <= Run(s, events).latest
    decreases |events|
  {
    hide Inv, Step;
    if events != [] {
      StepKeeps(s, events[0]);
      RunKeeps(Step(s, events[0]), events[1..]);
    }
  }

  // ---- Deferred cancellation over whole runs ----

  /** The keys other than `key` that a run really cancels. */
  ghost function OtherKeys(s: State, events: seq<Event>, key: string): set<string>
    decreases |events|
  {
    if events == [] then {}
    else CancelledKey(s, events[0], key) + OtherKeys(Step(s, events[0]), events[1..], key)
  }

  function CancelledKey(s: State, e: Event, key: string): set<string> {
    if e.Cancels? && s.latest <= e.t1 <= e.t2 && ValidWorkflow(e.workflow) && WorkflowKey(e.workflow) != key
    then {WorkflowKey(e.workflow)} else {}
  }

  lemma PruneArmed(ts: seq<Tombstone>, now: int, key: string, deadline: int, others: set<string>)
    requires Armed(ts, key, deadline, others) && now < deadline
    ensures Armed(Prune(ts, now), key, deadline, others)
  {
    KeepArmed(ts, (t: Tombstone) => t.expiresAt > now, key, deadline, others);
  }

  lemma CancelArmed(s: State, w: Workflow, t1: int, t2: int, key: string, deadline: int, others: set<string>)
    requires Inv(s) && s.latest <= t1 <= t2 < deadline <= s.latest + TTL && ValidWorkflow(w)
    requires Armed(s.tombstones, key, deadline, others) && |others + CancelledKey(s, Cancels(w, t1, t2), key)| < MAX_TOMBSTONES
    ensures Armed(CancelWorkflow(s, w, t1, t2).tombstones, key, deadline, others + CancelledKey(s, Cancels(w, t1, t2), key))
  {
    hide Arm, Prune, WorkflowKey, Sound, Armed;
    var ts := Prune(s.tombstones, t1);
    PruneSound(s.tombstones, t1, s.latest);
    LaterSound(ts, t1, t2);
    PruneArmed(s.tombstones, t1, key, deadline, others);
    if WorkflowKey(w) == key {
      ArmSelf(ts, key, others, t2);
      LaterDeadline(Arm(ts, key, t2 + TTL), key, t2 + TTL, deadline, others);
      assert others + {} == others;
    } else {
      ArmOther(ts, key, deadline, others, WorkflowKey(w), t2);
    }
  }

  lemma StepArmed(s: State, e: Event, key: string, deadline: int, others: set<string>)
    requires Inv(s) && Armed(s.tombstones, key, deadline, others) && deadline <= s.latest + TTL
    requires Step(s, e).latest < deadline && |others + CancelledKey(s, e, key)| < MAX_TOMBSTONES
    ensures Armed(Step(s, e).tombstones, key, deadline, others + CancelledKey(s, e, key))
  {
    hide Armed, Prune, Arm, Inv, WorkflowKey;
    assert others + {} == others;
    match e
    case Registers(r, t1, t2, t3) =>
      if s.latest <= t1 <= t2 <= t3 && ValidRegistration(r) {
        PruneArmed(s.tombstones, t1, key, deadline, others);
        if RegisterOutcome(s, r).Registered? {
          PruneArmed(Prune(s.tombstones, t1), t2, key, deadline, others);
        }
      }
    case Cancels(w, t1, t2) =>
      if s.latest <= t1 <= t2 && ValidWorkflow(w) {
        CancelArmed(s, w, t1, t2, key, deadline, others);
      }
    case Closes(serial) =>
    case Asks(_, t1, t2) =>
      if s.latest <= t1 <= t2 {
        PruneArmed(s.tombstones, t1, key, deadline, others);
      }
  }

  lemma {:induction false} StaysArmed(s: State, events: seq<Event>, key: string, deadline: int, others: set<string>)
    requires Inv(s) && Armed(s.tombstones, key, deadline, others) && deadline <= s.latest + TTL
    requires Run(s, events).latest < deadline && |others + OtherKeys(s, events, key)| < MAX_TOMBSTONES
    ensures Armed(Run(s, events).tombstones, key, deadline, others + OtherKeys(s, events, key))
    decreases |events|
  {
    hide Armed, Step, Inv;
    if events == [] {
      assert others + {} == others;
    } else {
      var z, k := Step(s, events[0]), CancelledKey(s, events[0], key);
      var rest := OtherKeys(z, events[1..], key);
      StepKeeps(s, events[0]);
      RunKeeps(z, events[1..]);
      assert others + OtherKeys(s, events, key) == (others + k) + rest;
      SubsetSize(others + k, (others + k) + rest);
      StepArmed(s, events[0], key, deadline, others);
      StaysArmed(z, events[1..], key, deadline, others + k);
    }
  }

  /** The callback of this execution has been called, and only once. */
  ghost predicate CalledOnce(signals: seq<Signal>, serial: nat) {
    exists i :: 0 <= i < |signals| && signals[i].serial == serial
                && forall j | 0 <= j < |signals| && signals[j].serial == serial :: j == i
  }

  lemma OnceIfSignalled(s: State, serial: nat)
    requires Inv(s) && Signalled(s.signals, serial)
    ensures CalledOnce(s.signals, serial)
  {
  }

  lemma {:induction false} SignalsStay(s: State, events: seq<Event>)
    ensures s.signals <= Run(s, events).signals
    decreases |events|
  {
    hide Prune, Arm, Live;
    if events != [] {
      SignalsStay(Step(s, events[0]), events[1..]);
      assert s.signals <= Step(s, events[0]).signals;
    }
  }

  lemma StillSignalled(s: State, events: seq<Event>, serial: nat)
    requires Inv(s) && Signalled(s.signals, serial)
    ensures CalledOnce(Run(s, events).signals, serial)
  {
    hide Inv;
    SignalsStay(s, events);
    RunKeeps(s, events);
    OnceIfSignalled(Run(s, events), serial);
  }

  /** Every execution that is active when its workflow is cancelled has its callback called, exactly
      once over the whole run. */
  lemma ActiveAreCancelled(now: int, before: seq<Event>, w: Workflow, t1: int, t: int, after: seq<Event>, e: Entry)
    requires var s := Run(Init(now), before); s.latest <= t1 <= t && e in s.active && WorkflowOf(e.input) == w
    ensures var s := Run(Init(now), before);
            CalledOnce(Run(Step(s, Cancels(w, t1, t)), after).signals, e.serial)
  {
    hide Prune, Arm, Sound, Caused, Inv, EntriesOk, SignalsOk, CalledOnce, Matching, Unsignalled, SignalsOf, Marked;
    RunKeeps(Init(now), before) by { InitOk(now); }
    var s := Run(Init(now), before);
    ActiveHit(s, w, t1, t, e);
    StepKeeps(s, Cancels(w, t1, t));
    StillSignalled(Step(s, Cancels(w, t1, t)), after, e.serial);
  }

  lemma ActiveHit(s: State, w: Workflow, t1: int, t: int, e: Entry)
    requires Inv(s) && s.latest <= t1 <= t && e in s.active && WorkflowOf(e.input) == w
    ensures Signalled(CancelWorkflow(s, w, t1, t).signals, e.serial)
  {
    hide Prune, Arm, Sound, Caused, ExecutionKey;
    MarkedSignals(s.active, s.signals, w, s.next);
    var i :| 0 <= i < |s.active| && s.active[i] == e;
    assert Marked(s.active, w)[i] == MarkOne(e, w);
    assert MarkOne(e, w) in Marked(s.active, w);
  }

  /** Every execution that registers after the cancellation, before the tombstone expires and while
      fewer than 1000 other workflows were cancelled in between, has its callback called, exactly once
      over the whole run. */
  lemma LateRegistrationIsCancelled(now: int, before: seq<Event>, w: Workflow, t1: int, t: int, between: seq<Event>,
                                    r: Registration, u1: int, u2: int, u3: int, after: seq<Event>)
    requires ValidWorkflow(w) && Run(Init(now), before).latest <= t1 <= t && WorkflowOf(r) == w
    requires var s := Step(Run(Init(now), before), Cancels(w, t1, t));
             && Run(s, between).latest <= u1 <= u2 <= u3 < t + TTL
             && RegisterOutcome(Run(s, between), r).Registered?
             && |OtherKeys(s, between, WorkflowKey(w))| < MAX_TOMBSTONES
    ensures var s := Run(Step(Run(Init(now), before), Cancels(w, t1, t)), between);
            CalledOnce(Run(Step(s, Registers(r, u1, u2, u3)), after).signals, RegisterOutcome(s, r).serial)
  {
    hide Prune, Arm, Sound, Caused, Armed, Live, WorkflowKey, Inv, EntriesOk, SignalsOk;
    RunKeeps(Init(now), before) by { InitOk(now); }
    var s0 := Run(Init(now), before);
    var s1 := Step(s0, Cancels(w, t1, t));
    CancelArms(s0, w, t1, t);
    StepKeeps(s0, Cancels(w, t1, t));
    assert {} + OtherKeys(s1, between, WorkflowKey(w)) == OtherKeys(s1, between, WorkflowKey(w));
    StaysArmed(s1, between, WorkflowKey(w), t + TTL, {});
    RunKeeps(s1, between);
    var s2 := Run(s1, between);
    StepKeeps(s2, Registers(r, u1, u2, u3));
    LateHit(s2, r, u1, u2, u3, t + TTL, OtherKeys(s1, between, WorkflowKey(w)));
    StillSignalled(Step(s2, Registers(r, u1, u2, u3)), after, s2.next);
  }

  lemma InitOk(now: int)
    ensures Inv(Init(now))
  {
  }

  lemma CancelArms(s: State, w: Workflow, t1: int, t: int)
    requires Inv(s) && s.latest <= t1 <= t && ValidWorkflow(w)
    ensures Armed(CancelWorkflow(s, w, t1, t).tombstones, WorkflowKey(w), t + TTL, {})
  {
    hide Arm, Prune, Armed, WorkflowKey, Sound;
    PruneSound(s.tombstones, t1, s.latest);
    LaterSound(Prune(s.tombstones, t1), t1, t);
    ArmSelf(Prune(s.tombstones, t1), WorkflowKey(w), {}, t);
  }

  lemma LateHit(s: State, r: Registration, t1: int, t2: int, t3: int, deadline: int, others: set<string>)
    requires s.latest <= t1 <= t2 <= t3 < deadline && RegisterOutcome(s, r).Registered?
    requires Armed(s.tombstones, WorkflowKey(WorkflowOf(r)), deadline, others)
    ensures Signalled(Register(s, r, t1, t2, t3).signals, s.next)
    ensures Register(s, r, t1, t2, t3).signals == s.signals + [Signal(s.next, WorkflowOf(r))]
  {
    hide Prune, Armed, WorkflowKey, Live;
    var key := WorkflowKey(WorkflowOf(r));
    PruneArmed(s.tombstones, t1, key, deadline, others);
    PruneArmed(Prune(s.tombstones, t1), t2, key, deadline, others);
    ArmedIsLive(Prune(Prune(s.tombstones, t1), t2), key, deadline, others, t3);
    var z := Register(s, r, t1, t2, t3);
    assert z.signals == s.signals + [Signal(s.next, WorkflowOf(r))];
    assert z.signals[|s.signals|] in z.signals;
  }

  /** After every call: at most 1000 tombstones, in order of expiry, and no callback called twice. */
  lemma TableBounded(now: int, events: seq<Event>)
    ensures var s := Run(Init(now), events);
            && |s.tombstones| <= MAX_TOMBSTONES && Ordered(s.tombstones) && UniqueKeys(s.tombstones)
            && forall i, j | 0 <= i < |s.signals| && 0 <= j < |s.signals| && s.signals[i].serial == s.signals[j].serial :: i == j
  {
    hide Step;
    RunKeeps(Init(now), events);
  }

  // ---- The bound of 1000 is tight ----

  /** The newest tombstones are those of `keys`, in this order, and are unexpired. */
  predicate Trailing(ts: seq<Tombstone>, keys: seq<string>, now: int)
    decreases |keys|
  {
    keys == []
    || (&& ts != [] && ts[|ts| - 1].key == keys[|keys| - 1] && ts[|ts| - 1].expiresAt > now
        && Trailing(ts[..|ts| - 1], keys[..|keys| - 1], now))
  }

  lemma AppendTrailing(ts: seq<Tombstone>, keys: seq<string>, t: Tombstone, now: int)
    requires Trailing(ts, keys, now) && t.expiresAt > now
    ensures Trailing(ts + [t], keys + [t.key], now)
  {
    assert (ts + [t])[..|ts|] == ts && (keys + [t.key])[..|keys|] == keys;
  }

  lemma {:induction false} KeepTrailing(ts: seq<Tombstone>, f: Tombstone -> bool, keys: seq<string>, now: int)
    requires Trailing(ts, keys, now) && forall t: Tombstone | t.key in keys && t.expiresAt > now :: f(t)
    ensures Trailing(Keep(ts, f), keys, now)
    decreases |ts|
  {
    if keys != [] {
      var n, m := |ts| - 1, |keys| - 1;
      KeepTrailing(ts[..n], f, keys[..m], now);
      AppendTrailing(Keep(ts[..n], f), keys[..m], ts[n], now);
      assert keys[..m] + [keys[m]] == keys;
      assert Keep(ts, f) == Keep(ts[..n], f) + [ts[n]];
    }
  }

  lemma {:induction false} DropTrailing(ts: seq<Tombstone>, keys: seq<string>, now: int)
    requires Trailing(ts, keys, now) && |ts| > |keys|
    ensures Trailing(ts[1..], keys, now)
    decreases |ts|
  {
    if keys != [] {
      var n := |ts| - 1;
      DropTrailing(ts[..n], keys[..|keys| - 1], now);
      assert ts[1..][..n - 1] == ts[..n][1..] && ts[1..][n - 1] == ts[n];
    }
  }

  lemma {:induction false} EvictTrailing(ts: seq<Tombstone>, keys: seq<string>, now: int)
    requires Trailing(ts, keys, now) && |keys| <= MAX_TOMBSTONES
    ensures Trailing(Evict(ts), keys, now)
    decreases |ts|
  {
    if |ts| > MAX_TOMBSTONES {
      DropTrailing(ts, keys, now);
      EvictTrailing(ts[1..], keys, now);
    }
  }

  lemma ArmTrailing(ts: seq<Tombstone>, keys: seq<string>, key: string, now: int)
    requires Trailing(ts, keys, now) && key !in keys && |keys| < MAX_TOMBSTONES
    ensures Trailing(Arm(ts, key, now + TTL), keys + [key], now)
  {
    hide Evict, Keep;
    KeepTrailing(ts, (t: Tombstone) => t.key != key, keys, now);
    AppendTrailing(Remove(ts, key), keys, Tombstone(key, now + TTL), now);
    EvictTrailing(Remove(ts, key) + [Tombstone(key, now + TTL)], keys + [key], now);
  }

  function KeysOf(ws: seq<Workflow>): seq<string> {
    seq(|ws|, i requires 0 <= i < |ws| => WorkflowKey(ws[i]))
  }

  /** All of them cancelled at one moment, in order. */
  function CancelsOf(ws: seq<Workflow>, now: int): seq<Event> {
    seq(|ws|, i requires 0 <= i < |ws| => Cancels(ws[i], now, now))
  }

  predicate AllDistinct(keys: seq<string>) {
    forall i, j | 0 <= i < j < |keys| :: keys[i] != keys[j]
  }

  lemma CancelTrailing(s: State, w: Workflow, keys: seq<string>, now: int)
    requires s.latest <= now && ValidWorkflow(w) && Trailing(s.tombstones, keys, now)
    requires WorkflowKey(w) !in keys && |keys| < MAX_TOMBSTONES
    ensures Trailing(CancelWorkflow(s, w, now, now).tombstones, keys + [WorkflowKey(w)], now)
  {
    hide Arm, WorkflowKey;
    KeepTrailing(s.tombstones, (t: Tombstone) => t.expiresAt > now, keys, now);
    ArmTrailing(Prune(s.tombstones, now), keys, WorkflowKey(w), now);
  }

  lemma {:induction false} CancelsTrailing(s: State, ws: seq<Workflow>, keys: seq<string>, now: int)
    requires s.latest <= now && Trailing(s.tombstones, keys, now) && |keys| + |ws| <= MAX_TOMBSTONES
    requires AllDistinct(keys + KeysOf(ws)) && forall w | w in ws :: ValidWorkflow(w)
    ensures var z := Run(s, CancelsOf(ws, now));
            Trailing(z.tombstones, keys + KeysOf(ws), now) && z.latest <= now && z.next == s.next
    decreases |ws|
  {
    hide Trailing, WorkflowKey, CancelWorkflow;
    if ws == [] {
      assert keys + KeysOf(ws) == keys;
    } else {
      var w := ws[0];
      var all := keys + KeysOf(ws);
      assert all[|keys|] == WorkflowKey(w);
      assert forall i | 0 <= i < |keys| :: all[i] == keys[i];
      CancelTrailing(s, w, keys, now);
      CancelBasics(s, w, now);
      var more := keys + [WorkflowKey(w)];
      assert more + KeysOf(ws[1..]) == all;
      assert CancelsOf(ws, now)[1..] == CancelsOf(ws[1..], now);
      CancelsTrailing(CancelWorkflow(s, w, now, now), ws[1..], more, now);
    }
  }

  lemma CancelBasics(s: State, w: Workflow, now: int)
    requires ValidWorkflow(w)
    ensures var z := CancelWorkflow(s, w, now, now); z.latest == now && z.next == s.next && (s.active == [] ==> z.active == [])
  {
    hide Arm, Prune;
  }

  /** A table full of other tombstones has none of `key`. */
  lemma {:induction false} FullTable(ts: seq<Tombstone>, keys: seq<string>, key: string, now: int)
    requires Trailing(ts, keys, now) && |ts| <= |keys| && key !in keys
    ensures forall t | t in ts :: t.key != key
    decreases |ts|
  {
    if ts != [] {
      var n, m := |ts| - 1, |keys| - 1;
      FullTable(ts[..n], keys[..m], key, now);
      assert ts == ts[..n] + [ts[n]];
    }
  }

  /** Whatever workflow is cancelled: if 1000 others with distinct keys are cancelled after it, an
      execution of it that registers at the same moment is not signalled. */
  lemma ThousandOthersForget(s: State, w: Workflow, ws: seq<Workflow>, r: Registration, now: int)
    requires Inv(s) && s.latest <= now && ValidWorkflow(w) && WorkflowOf(r) == w
    requires |ws| == MAX_TOMBSTONES && AllDistinct(KeysOf(ws)) && WorkflowKey(w) !in KeysOf(ws) && forall x | x in ws :: ValidWorkflow(x)
    ensures var z := Run(CancelWorkflow(s, w, now, now), CancelsOf(ws, now));
            && RegisterOutcome(z, r).Registered? ==> !Signalled(Register(z, r, now, now, now).signals, z.next)
  {
    hide WorkflowKey, CancelWorkflow, Register, Inv;
    Forgotten(s, w, ws, now);
    var z := Run(CancelWorkflow(s, w, now, now), CancelsOf(ws, now));
    if RegisterOutcome(z, r).Registered? {
      NotRemembered(z, r, now);
    }
  }

  lemma Forgotten(s: State, w: Workflow, ws: seq<Workflow>, now: int)
    requires Inv(s) && s.latest <= now && ValidWorkflow(w)
    requires |ws| == MAX_TOMBSTONES && AllDistinct(KeysOf(ws)) && WorkflowKey(w) !in KeysOf(ws) && forall x | x in ws :: ValidWorkflow(x)
    ensures var z := Run(CancelWorkflow(s, w, now, now), CancelsOf(ws, now));
            Inv(z) && forall t | t in z.tombstones :: t.key != WorkflowKey(w)
  {
    hide WorkflowKey, CancelWorkflow, Step, Inv, Trailing;
    var s1 := CancelWorkflow(s, w, now, now);
    CancelBasics(s, w, now);
    CancelKeeps(s, w, now, now);
    assert [] + KeysOf(ws) == KeysOf(ws);
    NothingTrails(s1.tombstones, now);
    CancelsTrailing(s1, ws, [], now);
    RunKeeps(s1, CancelsOf(ws, now));
    var z := Run(s1, CancelsOf(ws, now));
    TableSize(z);
    FullTable(z.tombstones, KeysOf(ws), WorkflowKey(w), now);
  }

  lemma NothingTrails(ts: seq<Tombstone>, now: int)
    ensures Trailing(ts, [], now)
  {
  }

  lemma TableSize(s: State)
    requires Inv(s)
    ensures |s.tombstones| <= MAX_TOMBSTONES
  {
  }

  lemma NotRemembered(s: State, r: Registration, now: int)
    requires Inv(s) && RegisterOutcome(s, r).Registered? && forall t | t in s.tombstones :: t.key != WorkflowKey(WorkflowOf(r))
    ensures !Signalled(Register(s, r, now, now, now).signals, s.next)
  {
    hide WorkflowKey, Keep, Caused, EntriesOk;
    KeepMember(s.tombstones, (t: Tombstone) => t.expiresAt > now);
    KeepMember(Prune(s.tombstones, now), (t: Tombstone) => t.expiresAt > now);
    var z := Register(s, r, now, now, now);
    assert !Live(z.tombstones, WorkflowKey(WorkflowOf(r)), now);
    assert z.signals == s.signals;
  }

  lemma {:induction false} OthersCounted(s: State, ws: seq<Workflow>, key: string, now: int)
    requires s.latest <= now && key !in KeysOf(ws) && forall x | x in ws :: ValidWorkflow(x)
    ensures OtherKeys(s, CancelsOf(ws, now), key) == set k | k in KeysOf(ws)
    decreases |ws|
  {
    hide WorkflowKey, CancelWorkflow;
    if ws != [] {
      CancelBasics(s, ws[0], now);
      assert KeysOf(ws) == [WorkflowKey(ws[0])] + KeysOf(ws[1..]);
      assert CancelsOf(ws, now)[1..] == CancelsOf(ws[1..], now);
      OthersCounted(CancelWorkflow(s, ws[0], now, now), ws[1..], key, now);
    }
  }

  lemma {:induction false} DistinctSize(keys: seq<string>)
    requires AllDistinct(keys)
    ensures |set k | k in keys| == |keys|
  {
    if keys != [] {
      var n := |keys| - 1;
      DistinctSize(keys[..n]);
      assert keys == keys[..n] + [keys[n]];
      assert (set k | k in keys) == (set k | k in keys[..n]) + {keys[n]};
    }
  }

  function Numbered(n: nat): seq<Workflow> {
    seq(n, i requires 0 <= i < n => Workflow("n", Decimal(i)))
  }

  lemma NumberedKeys(i: nat, j: nat)
    requires WorkflowKey(Workflow("n", Decimal(i))) == WorkflowKey(Workflow("n", Decimal(j)))
    ensures i == j
  {
    NoColonNoClash(Workflow("n", Decimal(i)), Workflow("n", Decimal(j)));
    ParseDecimalInverts(i);
    ParseDecimalInverts(j);
  }

  lemma NumberedFits()
    ensures var ws := Numbered(MAX_TOMBSTONES);
            && AllDistinct(KeysOf(ws)) && (forall x | x in ws :: ValidWorkflow(x))
            && WorkflowKey(Workflow("o", "w")) !in KeysOf(ws)
  {
    hide WorkflowKey, Decimal;
    var ws := Numbered(MAX_TOMBSTONES);
    forall i, j | 0 <= i < j < |ws| ensures KeysOf(ws)[i] != KeysOf(ws)[j] {
      if KeysOf(ws)[i] == KeysOf(ws)[j] {
        NumberedKeys(i, j);
      }
    }
    forall i | 0 <= i < |ws| ensures ValidWorkflow(ws[i]) && KeysOf(ws)[i] != WorkflowKey(Workflow("o", "w")) {
      assert Pow10(3) == 1000;
      DecimalLength(i, 3);
      OtherLetter(i);
    }
  }

  lemma OtherLetter(i: nat)
    ensures WorkflowKey(Workflow("n", Decimal(i))) != WorkflowKey(Workflow("o", "w"))
  {
    assert WorkflowKey(Workflow("n", Decimal(i)))[0] == 'n' && WorkflowKey(Workflow("o", "w"))[0] == 'o';
  }

  /** So 999 cannot be raised: a run with exactly 1000 other keys in between, well before expiry, after which
      a registration of the cancelled workflow is accepted and not signalled. */
  lemma ThousandIsTight(r: Registration)
    requires WorkflowOf(r) == Workflow("o", "w") && ValidRegistration(r)
    ensures var w, between := Workflow("o", "w"), CancelsOf(Numbered(MAX_TOMBSTONES), 0);
            var s := Step(Init(0), Cancels(w, 0, 0));
            && |OtherKeys(s, between, WorkflowKey(w))| == MAX_TOMBSTONES
            && RegisterOutcome(Run(s, between), r).Registered?
            && !Signalled(Register(Run(s, between), r, 0, 0, 0).signals, RegisterOutcome(Run(s, between), r).serial)
  {
    hide WorkflowKey, CancelWorkflow, Register, OtherKeys, AllDistinct;
    var w, ws := Workflow("o", "w"), Numbered(MAX_TOMBSTONES);
    NumberedFits();
    InitOk(0);
    CancelBasics(Init(0), w, 0);
    var s := CancelWorkflow(Init(0), w, 0, 0);
    OthersCounted(s, ws, WorkflowKey(w), 0);
    DistinctSize(KeysOf(ws));
    NothingActive(s, ws, 0);
    ThousandOthersForget(Init(0), w, ws, r, 0);
  }

  lemma {:induction false} NothingActive(s: State, ws: seq<Workflow>, now: int)
    requires s.active == [] && s.latest <= now && forall x | x in ws :: ValidWorkflow(x)
    ensures Run(s, CancelsOf(ws, now)).active == []
    decreases |ws|
  {
    hide CancelWorkflow;
    if ws != [] {
      CancelBasics(s, ws[0], now);
      assert CancelsOf(ws, now)[1..] == CancelsOf(ws[1..], now);
      NothingActive(CancelWorkflow(s, ws[0], now, now), ws[1..], now);
    }
  }

  // ---- Only what was cancelled ----

  /** Two workflows share a key exactly when they are one, or the colon that separates the parts of one
      lies inside the organization id of the other. */
  lemma KeysClashExactly(x: Workflow, y: Workflow)
    ensures WorkflowKey(x) == WorkflowKey(y) <==> x == y || Shifted(x, y) || Shifted(y, x)
  {
    var k, l := WorkflowKey(x), WorkflowKey(y);
    var m, n := |x.organizationId|, |y.organizationId|;
    assert k[..m] == x.organizationId && k[m] == ':' && k[m + 1..] == x.workflowRunId;
    assert l[..n] == y.organizationId && l[n] == ':' && l[n + 1..] == y.workflowRunId;
    if k == l && m < n {
      ShiftFound(x, y);
    } else if k == l && n < m {
      ShiftFound(y, x);
    }
    ShiftClashes(x, y);
    ShiftClashes(y, x);
  }

  ghost predicate Shifted(x: Workflow, y: Workflow) {
    exists z: string :: y.organizationId == x.organizationId + ":" + z && x.workflowRunId == z + ":" + y.workflowRunId
  }

  lemma ShiftFound(x: Workflow, y: Workflow)
    requires WorkflowKey(x) == WorkflowKey(y) && |x.organizationId| < |y.organizationId|
    ensures Shifted(x, y)
  {
    var k := WorkflowKey(x);
    var m, n := |x.organizationId|, |y.organizationId|;
    var z := k[m + 1..n];
    assert k[..n] == y.organizationId && k[..m] == x.organizationId && k[m] == ':' && k[n] == ':';
    assert k[m + 1..] == x.workflowRunId && k[n + 1..] == y.workflowRunId;
    assert y.organizationId == k[..m] + [k[m]] + k[m + 1..n];
    assert k[m + 1..] == k[m + 1..n] + [k[n]] + k[n + 1..];
  }

  lemma ShiftClashes(x: Workflow, y: Workflow)
    ensures Shifted(x, y) ==> WorkflowKey(x) == WorkflowKey(y)
  {
  }

  lemma NoColonNoClash(x: Workflow, y: Workflow)
    requires ':' !in x.organizationId && ':' !in y.organizationId && WorkflowKey(x) == WorkflowKey(y)
    ensures x == y
  {
    KeysClashExactly(x, y);
    NoColonNoShift(x, y);
    NoColonNoShift(y, x);
  }

  lemma NoColonNoShift(x: Workflow, y: Workflow)
    requires ':' !in y.organizationId
    ensures !Shifted(x, y)
  {
  }

  /** With organization ids that contain no colon, a callback is only ever called for an execution of a
      workflow that was itself cancelled. */
  lemma OnlyCancelledAreSignalled(now: int, events: seq<Event>, x: Signal)
    requires var s := Run(Init(now), events);
             && x in s.signals && ':' !in x.workflow.organizationId
             && forall w | w in s.cancelled :: ':' !in w.organizationId
    ensures exists i :: 0 <= i < |events| && events[i].Cancels? && events[i].workflow == x.workflow
  {
    hide Step, WorkflowKey;
    RunKeeps(Init(now), events);
    var s := Run(Init(now), events);
    var w :| w in s.cancelled && WorkflowKey(w) == WorkflowKey(x.workflow);
    NoColonNoClash(w, x.workflow);
    CancelledByEvent(Init(now), events, w);
  }

  lemma {:induction false} CancelledByEvent(s: State, events: seq<Event>, w: Workflow)
    requires w in Run(s, events).cancelled
    ensures w in s.cancelled || exists i :: 0 <= i < |events| && events[i].Cancels? && events[i].workflow == w
    decreases |events|
  {
    hide Prune, Arm, Live;
    if events != [] {
      CancelledByEvent(Step(s, events[0]), events[1..], w);
      if w !in Step(s, events[0]).cancelled {
        var i :| 0 <= i < |events[1..]| && events[1..][i].Cancels? && events[1..][i].workflow == w;
        assert events[i + 1].workflow == w;
      }
    }
  }

  /** Workflows that share a key are confused: on a fresh registry, cancelling `w` signals a registering
      execution exactly when its workflow has the same key. */
  lemma SharedKeyConfuses(w: Workflow, r: Registration)
    requires ValidWorkflow(w) && ValidRegistration(r)
    ensures Signalled(Register(CancelWorkflow(Init(0), w, 0, 0), r, 0, 0, 0).signals, 0)
            <==> WorkflowKey(WorkflowOf(r)) == WorkflowKey(w)
  {
  }

  // ---- Execution keys ----

  /** The text between colons. */
  function Pieces(s: string): (r: seq<string>)
    ensures r != []
  {
    if s == [] then [""]
    else if s[0] == ':' then [""] + Pieces(s[1..])
    else
      var rest := Pieces(s[1..]);
      [[s[0]] + rest[0]] + rest[1..]
  }

  lemma {:induction false} PiecesJoin(s: string)
    ensures Join(Pieces(s), ":") == s
  {
    if s != [] {
      PiecesJoin(s[1..]);
      var rest := Pieces(s[1..]);
      if s[0] == ':' {
        assert ([""] + rest)[1..] == rest;
        assert s == ":" + s[1..];
      } else {
        var first := [s[0]] + rest[0];
        assert ([first] + rest[1..])[1..] == rest[1..];
        assert s == [s[0]] + s[1..];
        if |rest| > 1 {
          assert first + ":" + Join(rest[1..], ":") == [s[0]] + (rest[0] + ":" + Join(rest[1..], ":"));
        }
      }
    }
  }

  /** A piece grown in front stays in front of whatever is appended. */
  lemma GrownFront(c: char, p: seq<string>, q: seq<string>)
    requires p != []
    ensures [[c] + (p + q)[0]] + (p + q)[1..] == [[c] + p[0]] + p[1..] + q
  {
    assert (p + q)[0] == p[0] && (p + q)[1..] == p[1..] + q;
  }

  lemma {:induction false} PiecesConcat(a: string, b: string)
    ensures Pieces(a + ":" + b) == Pieces(a) + Pieces(b)
  {
    var s := a + ":" + b;
    if a == [] {
      assert s[0] == ':' && s[1..] == b;
    } else {
      assert s[0] == a[0] && s[1..] == a[1..] + ":" + b;
      PiecesConcat(a[1..], b);
      GrownFront(a[0], Pieces(a[1..]), Pieces(b));
      assert [""] + (Pieces(a[1..]) + Pieces(b)) == [""] + Pieces(a[1..]) + Pieces(b);
    }
  }

  function KeyPieces(r: Registration): seq<string> {
    Pieces(r.organizationId) + Pieces(r.workflowRunId) + Pieces(r.workflowStepRunId) + Pieces(r.executionId)
  }

  lemma ExecutionKeyPieces(r: Registration)
    ensures Pieces(ExecutionKey(r)) == KeyPieces(r) && Join(KeyPieces(r), ":") == ExecutionKey(r)
  {
    var a := r.organizationId + ":" + r.workflowRunId;
    var b := a + ":" + r.workflowStepRunId;
    PiecesConcat(r.organizationId, r.workflowRunId);
    PiecesConcat(a, r.workflowStepRunId);
    PiecesConcat(b, r.executionId);
    hide Pieces;
    PiecesJoin(ExecutionKey(r));
  }

  /** Two executions share a key exactly when their ids, cut at every colon, give the same pieces. */
  lemma ExecutionKeysClashExactly(x: Registration, y: Registration)
    ensures ExecutionKey(x) == ExecutionKey(y) <==> KeyPieces(x) == KeyPieces(y)
  {
    hide ExecutionKey, KeyPieces;
    ExecutionKeyPieces(x);
    ExecutionKeyPieces(y);
  }

  lemma {:induction false} NoColonOnePiece(s: string)
    requires ':' !in s
    ensures Pieces(s) == [s]
  {
    if s != [] {
      NoColonOnePiece(s[1..]);
      assert [s[0]] + s[1..] == s;
    }
  }

  predicate ColonFree(r: Registration) {
    ':' !in r.organizationId && ':' !in r.workflowRunId && ':' !in r.workflowStepRunId
  }

  /** Without colons in the first three ids no two executions share a key. */
  lemma NoColonNoDuplicate(x: Registration, y: Registration)
    requires ColonFree(x) && ColonFree(y) && ExecutionKey(x) == ExecutionKey(y)
    ensures WorkflowOf(x) == WorkflowOf(y) && x.workflowStepRunId == y.workflowStepRunId && x.executionId == y.executionId
  {
    ExecutionKeysClashExactly(x, y);
    ThreePieces(x);
    ThreePieces(y);
    hide ExecutionKey, KeyPieces, Pieces;
    var p, q := [x.organizationId, x.workflowRunId, x.workflowStepRunId], [y.organizationId, y.workflowRunId, y.workflowStepRunId];
    var k := KeyPieces(x);
    assert k[..3] == p && k[..3] == q && k[3..] == Pieces(x.executionId) && k[3..] == Pieces(y.executionId);
    assert p[0] == q[0] && p[1] == q[1] && p[2] == q[2];
    PiecesJoin(x.executionId);
    PiecesJoin(y.executionId);
  }

  lemma ThreePieces(r: Registration)
    requires ColonFree(r)
    ensures KeyPieces(r) == [r.organizationId, r.workflowRunId, r.workflowStepRunId] + Pieces(r.executionId)
  {
    NoColonOnePiece(r.organizationId);
    NoColonOnePiece(r.workflowRunId);
    NoColonOnePiece(r.workflowStepRunId);
  }

  /** A valid registration is refused as a duplicate exactly when an active execution, not necessarily the
      same one, has the same pieces. */
  lemma DuplicateExactly(s: State, r: Registration)
    requires ValidRegistration(r)
    ensures RegisterOutcome(s, r).Duplicate? <==> exists e | e in s.active :: KeyPieces(e.input) == KeyPieces(r)
  {
    hide ExecutionKey, KeyPieces, ValidRegistration;
    forall e | e in s.active ensures ExecutionKey(e.input) == ExecutionKey(r) <==> KeyPieces(e.input) == KeyPieces(r) {
      ExecutionKeysClashExactly(e.input, r);
    }
  }

  /** A colon that moves from the step into the execution makes another execution a duplicate. */
  lemma OtherExecutionRefused(x: Registration, y: Registration, a: string, b: string, c: string)
    requires ValidRegistration(x) && ValidRegistration(y) && WorkflowOf(x) == WorkflowOf(y)
    requires x.workflowStepRunId == a + ":" + b && x.executionId == c
    requires y.workflowStepRunId == a && y.executionId == b + ":" + c
    ensures x.workflowStepRunId != y.workflowStepRunId && RegisterOutcome(Register(Init(0), x, 0, 0, 0), y).Duplicate?
  {
    var s := Register(Init(0), x, 0, 0, 0);
    assert s.active[0].input == x && s.active[0] in s.active;
    var k := WorkflowKey(WorkflowOf(x));
    assert k + ":" + (a + ":" + b) + ":" + c == k + ":" + a + ":" + (b + ":" + c);
    assert ExecutionKey(x) == ExecutionKey(y);
    hide ExecutionKey, ValidRegistration;
  }

  // ---- Reports ----

  lemma {:induction false} OutcomesAddUp(u: seq<Entry>)
    ensures |Failing(u)| + |Succeeding(u)| == |u|
  {
    if u != [] {
      OutcomesAddUp(u[..|u| - 1]);
    }
  }

  predicate IsText(s: string) { 0 < |s| <= 1024 }

  predicate IsCount(n: int) { 0 <= n <= 0x1F_FFFF_FFFF_FFFF }

  /** The checks of the control center on the report of a cancellation. */
  predicate ParserAccepts(w: Workflow, r: Report) {
    && IsText(w.organizationId) && IsText(w.workflowRunId)
    && IsCount(r.matched) && IsCount(r.attempts) && IsCount(r.failures)
    && |r.ids| <= 100 && (forall id | id in r.ids :: IsText(id))
    && r.attempts <= r.matched && r.failures <= r.attempts
  }

  /** Every report adds up and is accepted by its consumer. */
  lemma ReportAccepted(s: State, w: Workflow)
    requires Inv(s) && ValidWorkflow(w) && IsCount(|s.active|)
    ensures var r := ReportOf(Matching(s.active, w));
            && ParserAccepts(w, r)
            && |r.ids| == if r.attempts - r.failures > MAX_REPORTED then MAX_REPORTED else r.attempts - r.failures
  {
    hide Matching, Unsignalled, Failing, Succeeding, ExecutionKey;
    var m := Matching(s.active, w);
    var u := Unsignalled(m);
    MatchesAreFew(s.active, w);
    OutcomesAddUp(u);
    PendingExactly(s.active, w, s.next);
    SucceedingIds(u);
  }

  lemma MatchesAreFew(active: seq<Entry>, w: Workflow)
    ensures |Unsignalled(Matching(active, w))| <= |Matching(active, w)| <= |active|
  {
    KeepMember(active, (e: Entry) => WorkflowOf(e.input) == w);
    KeepMember(Matching(active, w), (e: Entry) => !e.cancelRequested);
  }

  lemma SucceedingIds(u: seq<Entry>)
    requires forall e | e in u :: ValidRegistration(e.input)
    ensures forall id | id in ExecutionIds(Succeeding(u)) :: IsText(id)
  {
    KeepMember(u, (e: Entry) => !e.input.throws);
    var ok := Succeeding(u);
    assert forall i | 0 <= i < |ok| :: ok[i] in u && ExecutionIds(ok)[i] == ok[i].input.executionId;
  }
}
