/** What the cancellation registry remembers, for how long, and what it reports, over whole runs. */
module CancellationLaws {
  import opened Strings
  import opened Cancellation

  const HOUR := 3_600_000

  // ---- How long a cancellation is remembered ----

  /** The event is a cancellation that leaves exactly this tombstone: its own key, for one hour. */
  predicate Leaves(e: Event, t: Tombstone) {
    e.Cancels? && t == Tombstone(e.workflow.organizationId + ":" + e.workflow.workflowRunId, e.t2 + HOUR)
  }

  lemma PruneExactly(ts: seq<Tombstone>, now: int)
    ensures forall t :: t in Prune(ts, now) <==> t in ts && t.expiresAt > now
  {
    KeepMember(ts, (t: Tombstone) => t.expiresAt > now);
  }

  lemma ArmAdds(ts: seq<Tombstone>, key: string, expiresAt: int)
    ensures forall t | t in Arm(ts, key, expiresAt) :: t in ts || t == Tombstone(key, expiresAt)
  {
    KeepMember(ts, (t: Tombstone) => t.key != key);
    EvictKeepsNewest(Remove(ts, key) + [Tombstone(key, expiresAt)]);
    hide Evict, Keep;
  }

  lemma StepLeaves(s: State, e: Event, t: Tombstone)
    requires t in Step(s, e).tombstones
    ensures t in s.tombstones || Leaves(e, t)
  {
    hide Prune, Arm, Live, Matching, Unsignalled, SignalsOf, Marked, Keep;
    match e
    case Registers(r, t1, t2, t3) =>
      PruneExactly(s.tombstones, t1);
      PruneExactly(Prune(s.tombstones, t1), t2);
    case Cancels(w, t1, t2) =>
      PruneExactly(s.tombstones, t1);
      ArmAdds(Prune(s.tombstones, t1), WorkflowKey(w), t2 + TTL);
    case Closes(serial) =>
    case Asks(_, t1, t2) => PruneExactly(s.tombstones, t1);
  }

  lemma {:induction false} RunLeaves(s: State, events: seq<Event>, t: Tombstone)
    requires t in Run(s, events).tombstones
    ensures t in s.tombstones || exists e | e in events :: Leaves(e, t)
    decreases |events|
  {
    hide Step;
    if events != [] {
      RunLeaves(Step(s, events[0]), events[1..], t);
      if t in Step(s, events[0]).tombstones {
        StepLeaves(s, events[0], t);
      }
    }
  }

  /** An execution is cancelled as it registers only if a workflow of its key was cancelled less than an hour
      before, whatever happened in between. */
  lemma LateCallInTime(now: int, before: seq<Event>, r: Registration, t1: int, t2: int, t3: int)
    requires var s := Run(Init(now), before);
             && s.latest <= t1 <= t2 <= t3 && RegisterOutcome(s, r).Registered?
             && Signalled(Step(s, Registers(r, t1, t2, t3)).signals, s.next)
    ensures exists e | e in before ::
              e.Cancels? && WorkflowKey(e.workflow) == WorkflowKey(WorkflowOf(r)) && t3 < e.t2 + HOUR
  {
    var s := Run(Init(now), before);
    InitOk(now);
    RunKeeps(Init(now), before);
    var ts := Prune(Prune(s.tombstones, t1), t2);
    CalledMeansLive(s, r, t1, t2, t3);
    hide Step, Live, Inv;
    var t := LiveOne(ts, WorkflowKey(WorkflowOf(r)), t3);
    PruneExactly(s.tombstones, t1);
    PruneExactly(Prune(s.tombstones, t1), t2);
    RunLeaves(Init(now), before, t);
    var e :| e in before && Leaves(e, t);
  }

  lemma LiveOne(ts: seq<Tombstone>, key: string, now: int) returns (t: Tombstone)
    requires Live(ts, key, now)
    ensures t in ts && t.key == key && t.expiresAt > now
  {
    t :| t in ts && t.key == key && t.expiresAt > now;
  }

  lemma CalledMeansLive(s: State, r: Registration, t1: int, t2: int, t3: int)
    requires Inv(s) && s.latest <= t1 <= t2 <= t3 && RegisterOutcome(s, r).Registered?
    requires Signalled(Step(s, Registers(r, t1, t2, t3)).signals, s.next)
    ensures Live(Prune(Prune(s.tombstones, t1), t2), WorkflowKey(WorkflowOf(r)), t3)
  {
    hide Prune, Live, Sound, EntriesOk, Caused, ValidRegistration, ExecutionKey;
    assert forall x | x in s.signals :: x.serial < s.next;
  }

  /** Asking prunes: exactly the unexpired tombstones remain. */
  lemma AskPrunes(s: State, w: Workflow, t1: int, t2: int)
    requires s.latest <= t1 <= t2
    ensures forall t :: t in Step(s, Asks(w, t1, t2)).tombstones <==> t in s.tombstones && t1 < t.expiresAt
  {
    PruneExactly(s.tombstones, t1);
  }

  /** So does registering, up to its last pruning, unless the registration is invalid. */
  lemma RegisterPrunes(s: State, r: Registration, t1: int, t2: int, t3: int)
    requires s.latest <= t1 <= t2 <= t3 && !RegisterOutcome(s, r).Invalid?
    ensures forall t :: t in Step(s, Registers(r, t1, t2, t3)).tombstones <==>
              t in s.tombstones && (if RegisterOutcome(s, r).Duplicate? then t1 else t2) < t.expiresAt
  {
    PruneExactly(s.tombstones, t1);
    PruneExactly(Prune(s.tombstones, t1), t2);
    hide Prune;
  }

  // ---- How long an execution is active ----

  ghost predicate Active(s: State, serial: nat, r: Registration) {
    exists e | e in s.active :: e.serial == serial && e.input == r
  }

  lemma StepActive(s: State, e: Event, serial: nat, r: Registration)
    requires Active(s, serial, r) && e != Closes(serial)
    ensures Active(Step(s, e), serial, r)
  {
    hide Prune, Arm, Live, Matching, Unsignalled, SignalsOf, ExecutionKey, ValidRegistration;
    var x :| x in s.active && x.serial == serial && x.input == r;
    match e
    case Registers(_, _, _, _) => assert x in s.active + [Entry(s.next, e.input, true)];
    case Cancels(w, _, _) =>
      var i :| 0 <= i < |s.active| && s.active[i] == x;
      assert Marked(s.active, w)[i] == MarkOne(x, w) && MarkOne(x, w) in Marked(s.active, w);
    case Closes(n) => KeepMember(s.active, (y: Entry) => y.serial != n);
    case Asks(_, _, _) =>
  }

  lemma {:induction false} RunActive(s: State, events: seq<Event>, serial: nat, r: Registration)
    requires Active(s, serial, r) && Closes(serial) !in events
    ensures Active(Run(s, events), serial, r)
    decreases |events|
  {
    hide Step, Active;
    if events != [] {
      StepActive(s, events[0], serial, r);
      RunActive(Step(s, events[0]), events[1..], serial, r);
    }
  }

  /** The serial number is spent and belongs to no active execution. */
  predicate Gone(s: State, serial: nat) {
    serial < s.next && forall e | e in s.active :: e.serial != serial
  }

  lemma StepGone(s: State, e: Event, serial: nat)
    requires Gone(s, serial)
    ensures Gone(Step(s, e), serial)
  {
    hide Prune, Arm, Live, Matching, Unsignalled, SignalsOf, ExecutionKey, ValidRegistration;
    match e
    case Registers(_, _, _, _) =>
    case Cancels(w, _, _) => assert forall i | 0 <= i < |s.active| :: s.active[i] in s.active;
    case Closes(n) => KeepMember(s.active, (y: Entry) => y.serial != n);
    case Asks(_, _, _) =>
  }

  lemma {:induction false} RunGone(s: State, events: seq<Event>, serial: nat)
    requires Gone(s, serial) || (serial < s.next && Closes(serial) in events)
    ensures Gone(Run(s, events), serial)
    decreases |events|
  {
    hide Step, Gone;
    if events != [] {
      if Gone(s, serial) {
        StepGone(s, events[0], serial);
      } else if events[0] == Closes(serial) {
        CloseGone(s, serial);
      } else {
        NextGrows(s, events[0]);
      }
      RunGone(Step(s, events[0]), events[1..], serial);
    }
  }

  lemma NextGrows(s: State, e: Event)
    ensures s.next <= Step(s, e).next
  {
  }

  lemma CloseGone(s: State, serial: nat)
    requires serial < s.next
    ensures Gone(Step(s, Closes(serial)), serial)
  {
    KeepMember(s.active, (y: Entry) => y.serial != serial);
  }

  /** An accepted registration is active exactly until it is closed, and so within reach of every cancellation
      of its workflow; closing another execution does not touch it. */
  lemma ActiveExactlyUntilClosed(s: State, r: Registration, t1: int, t2: int, t3: int, events: seq<Event>)
    requires s.latest <= t1 <= t2 <= t3 && RegisterOutcome(s, r).Registered?
    ensures var n := RegisterOutcome(s, r).serial;
            Active(Run(Step(s, Registers(r, t1, t2, t3)), events), n, r) <==> Closes(n) !in events
  {
    var n := RegisterOutcome(s, r).serial;
    var z := Step(s, Registers(r, t1, t2, t3));
    assert z.next == n + 1 && z.active[|s.active|].serial == n && z.active[|s.active|].input == r;
    assert z.active[|s.active|] in z.active;
    hide Step;
    if Closes(n) in events {
      RunGone(z, events, n);
    } else {
      RunActive(z, events, n, r);
    }
  }

  // ---- What a registration is told ----

  /** Refused as invalid exactly for a missing callback or an id that is empty or too long, and as a duplicate
      exactly when an active execution has the same pieces. */
  lemma OutcomeExactly(s: State, r: Registration)
    ensures RegisterOutcome(s, r).Invalid? <==>
              !r.hasCallback || exists id | id in [r.organizationId, r.workflowRunId, r.workflowStepRunId, r.executionId] :: |id| == 0 || |id| > 512
    ensures RegisterOutcome(s, r).Duplicate? <==>
              !RegisterOutcome(s, r).Invalid? && exists e | e in s.active :: KeyPieces(e.input) == KeyPieces(r)
    ensures RegisterOutcome(s, r).Registered? ==> RegisterOutcome(s, r).serial == s.next
  {
    ValidExactly(r);
    if ValidRegistration(r) {
      DuplicateExactly(s, r);
    }
    hide KeyPieces, ExecutionKey, ValidRegistration;
  }

  lemma ValidExactly(r: Registration)
    ensures ValidRegistration(r) <==>
              r.hasCallback && forall id | id in [r.organizationId, r.workflowRunId, r.workflowStepRunId, r.executionId] :: 0 < |id| <= 512
  {
    var ids := [r.organizationId, r.workflowRunId, r.workflowStepRunId, r.executionId];
    assert ids[0] in ids && ids[1] in ids && ids[2] in ids && ids[3] in ids;
  }

  // ---- What a cancellation reports ----

  /** How many entries pass the test. */
  function Count(entries: seq<Entry>, test: Entry -> bool): nat {
    if entries == [] then 0 else Count(entries[..|entries| - 1], test) + if test(entries[|entries| - 1]) then 1 else 0
  }

  lemma {:induction false} KeepCounts(entries: seq<Entry>, f: Entry -> bool, g: Entry -> bool, both: Entry -> bool)
    requires forall e: Entry :: both(e) <==> f(e) && g(e)
    ensures Count(Keep(entries, f), g) == Count(entries, both)
    decreases |entries|
  {
    if entries != [] {
      var init, last := entries[..|entries| - 1], entries[|entries| - 1];
      KeepCounts(init, f, g, both);
      if f(last) {
        assert (Keep(init, f) + [last])[..|Keep(init, f)|] == Keep(init, f);
      } else {
        assert Keep(entries, f) == Keep(init, f);
      }
    }
  }

  lemma {:induction false} CountAll(entries: seq<Entry>, all: Entry -> bool)
    requires forall e: Entry :: all(e)
    ensures Count(entries, all) == |entries|
    decreases |entries|
  {
    if entries != [] {
      CountAll(entries[..|entries| - 1], all);
    }
  }

  lemma KeepSize(entries: seq<Entry>, f: Entry -> bool)
    ensures |Keep(entries, f)| == Count(entries, f)
  {
    CountAll(Keep(entries, f), (e: Entry) => true);
    KeepCounts(entries, f, (e: Entry) => true, f);
  }

  /** Counting among the executions that a cancellation calls is counting among the active ones. */
  lemma PendingCounts(active: seq<Entry>, w: Workflow, g: Entry -> bool, all: Entry -> bool)
    requires forall e: Entry :: all(e) <==> WorkflowOf(e.input) == w && !e.cancelRequested && g(e)
    ensures Count(Unsignalled(Matching(active, w)), g) == Count(active, all)
  {
    var both := (e: Entry) => !e.cancelRequested && g(e);
    KeepCounts(Matching(active, w), (e: Entry) => !e.cancelRequested, g, both);
    KeepCounts(active, (e: Entry) => WorkflowOf(e.input) == w, both, all);
  }

  ghost predicate CalledInPeace(active: seq<Entry>, w: Workflow, id: string) {
    exists e | e in active ::
      e.input.executionId == id && WorkflowOf(e.input) == w && !e.cancelRequested && !e.input.throws
  }

  /** A report counts the active executions of the workflow, those of them whose callback this cancellation
      calls, and the calls that throw; it names up to a hundred executions whose callback was called in peace. */
  lemma ReportExactly(s: State, w: Workflow, t1: int, t2: int)
    requires s.latest <= t1 <= t2 && ValidWorkflow(w)
    ensures var r, z := ReportOf(Matching(s.active, w)), Step(s, Cancels(w, t1, t2));
            && r.matched == Count(s.active, (e: Entry) => WorkflowOf(e.input) == w)
            && r.attempts == Count(s.active, (e: Entry) => WorkflowOf(e.input) == w && !e.cancelRequested)
            && r.attempts == |z.signals| - |s.signals|
            && r.failures == Count(s.active, (e: Entry) => WorkflowOf(e.input) == w && !e.cancelRequested && e.input.throws)
            && |r.ids| == Least(100, r.attempts - r.failures)
            && forall id | id in r.ids :: CalledInPeace(s.active, w, id)
  {
    var m := Matching(s.active, w);
    var u := Unsignalled(m);
    KeepSize(s.active, (e: Entry) => WorkflowOf(e.input) == w);
    CountAll(u, (e: Entry) => true);
    PendingCounts(s.active, w, (e: Entry) => true, (e: Entry) => WorkflowOf(e.input) == w && !e.cancelRequested);
    KeepSize(u, (e: Entry) => e.input.throws);
    PendingCounts(s.active, w, (e: Entry) => e.input.throws,
                  (e: Entry) => WorkflowOf(e.input) == w && !e.cancelRequested && e.input.throws);
    OutcomesAddUp(u);
    NamedExactly(s.active, w);
    hide Keep, Count, Arm, Prune, CalledInPeace;
  }

  function Least(a: int, b: int): int { if a <= b then a else b }

  lemma NamedExactly(active: seq<Entry>, w: Workflow)
    ensures forall id | id in ExecutionIds(Succeeding(Unsignalled(Matching(active, w)))) :: CalledInPeace(active, w, id)
  {
    var u := Unsignalled(Matching(active, w));
    var ok := Succeeding(u);
    KeepMember(active, (e: Entry) => WorkflowOf(e.input) == w);
    KeepMember(Matching(active, w), (e: Entry) => !e.cancelRequested);
    KeepMember(u, (e: Entry) => !e.input.throws);
    hide Keep;
    forall id | id in ExecutionIds(ok) ensures CalledInPeace(active, w, id) {
      var i :| 0 <= i < |ok| && ExecutionIds(ok)[i] == id;
      assert ok[i] in ok && ok[i] in u && ok[i] in active;
    }
  }
}
