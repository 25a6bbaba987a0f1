/** The registry itself, as an object that is updated in place, proved to take exactly the steps of the
    specification in `Cancellation`. Clock readings are parameters and never go back. */
module CancellationRegistry {
  import opened Strings
  import opened Cancellation

  datatype SignalOutcome = SIGNALLED | ALREADY_SIGNALLED | FAILED

  // ---- Marking entries one by one ----

  /** The entries with one of these serials marked as cancelled. */
  function MarkSet(active: seq<Entry>, serials: set<nat>): seq<Entry> {
    seq(|active|, i requires 0 <= i < |active| =>
      if active[i].serial in serials then active[i].(cancelRequested := true) else active[i])
  }

  function SerialSet(entries: seq<Entry>): set<nat> {
    set e | e in entries :: e.serial
  }

  ghost predicate UniqueSerials(active: seq<Entry>) {
    forall i, j | 0 <= i < |active| && 0 <= j < |active| && active[i].serial == active[j].serial :: i == j
  }

  /** Marking all matches of a workflow is what the specification asks for. */
  lemma MarkMatches(active: seq<Entry>, w: Workflow)
    requires UniqueSerials(active)
    ensures MarkSet(active, SerialSet(Matching(active, w))) == Marked(active, w)
  {
    KeepMember(active, (e: Entry) => WorkflowOf(e.input) == w);
    var m := Matching(active, w);
    forall i | 0 <= i < |active| ensures active[i].serial in SerialSet(m) <==> WorkflowOf(active[i].input) == w {
      if active[i].serial in SerialSet(m) {
        var e :| e in m && e.serial == active[i].serial;
        var j :| 0 <= j < |active| && active[j] == e;
        assert i == j;
      }
    }
  }

  /** The flag of a match that has not been visited yet is the one it had at the start. */
  lemma FlagUntouched(active: seq<Entry>, done: set<nat>, m: Entry, i: nat)
    requires UniqueSerials(active) && m in active && m.serial !in done
    requires i < |active| && MarkSet(active, done)[i].serial == m.serial
    ensures MarkSet(active, done)[i] == m
  {
  }

  /** One more match extends everything that the loop over the matches accumulates. */
  lemma OneMoreMatch(matches: seq<Entry>, k: nat)
    requires k < |matches|
    ensures var m, before, after := matches[k], Unsignalled(matches[..k]), Unsignalled(matches[..k + 1]);
            && SerialSet(matches[..k + 1]) == SerialSet(matches[..k]) + {m.serial}
            && after == (if m.cancelRequested then before else before + [m])
            && SignalsOf(after) == SignalsOf(before) + (if m.cancelRequested then [] else [Signal(m.serial, WorkflowOf(m.input))])
  {
    assert matches[..k + 1][..k] == matches[..k];
    assert matches[..k + 1] == matches[..k] + [matches[k]];
  }

  lemma OneMoreAttempt(u: seq<Entry>, m: Entry)
    ensures Failing(u + [m]) == (if m.input.throws then Failing(u) + [m] else Failing(u))
    ensures ExecutionIds(Succeeding(u + [m])) == ExecutionIds(Succeeding(u)) + (if m.input.throws then [] else [m.input.executionId])
  {
  }

  /** How the report grows when one more match has been visited. */
  lemma ReportGrows(matches: seq<Entry>, k: nat)
    requires k < |matches|
    ensures var m, r, r' := matches[k], ReportOf(matches[..k]), ReportOf(matches[..k + 1]);
            && r'.attempts == r.attempts + (if m.cancelRequested then 0 else 1)
            && r'.failures == r.failures + (if !m.cancelRequested && m.input.throws then 1 else 0)
            && r'.ids == if !m.cancelRequested && !m.input.throws && |r.ids| < MAX_REPORTED then r.ids + [m.input.executionId] else r.ids
  {
    OneMoreMatch(matches, k);
    OneMoreAttempt(Unsignalled(matches[..k]), matches[k]);
    hide Unsignalled, Succeeding, Failing;
    var ok := ExecutionIds(Succeeding(Unsignalled(matches[..k])));
    if |ok| < MAX_REPORTED {
    } else {
      assert (ok + [matches[k].input.executionId])[..MAX_REPORTED] == ok[..MAX_REPORTED];
    }
  }

  lemma MatchesUnique(active: seq<Entry>, w: Workflow, next: nat)
    requires EntriesOk(active, next)
    ensures var m := Matching(active, w);
            && UniqueSerials(m) && UniqueSerials(active) && forall e | e in m :: e in active
  {
    KeepEntries(active, (e: Entry) => WorkflowOf(e.input) == w, next);
    KeepMember(active, (e: Entry) => WorkflowOf(e.input) == w);
  }

  lemma NotYetVisited(matches: seq<Entry>, k: nat)
    requires UniqueSerials(matches) && k < |matches|
    ensures matches[k].serial !in SerialSet(matches[..k])
  {
  }

  class ExecutionCancellationRegistry {
    var active: seq<Entry>
    var cancelledWorkflows: seq<Tombstone>
    var next: nat
    ghost var signals: seq<Signal>
    ghost var cancelled: set<Workflow>
    ghost var latest: int

    ghost function Contents(): State
      reads this
    {
      State(active, cancelledWorkflows, next, signals, cancelled, latest)
    }

    ghost predicate Valid()
      reads this
    {
      Inv(Contents())
    }

    constructor (ghost now: int)
      ensures Valid() && Contents() == Init(now)
    {
      active, cancelledWorkflows, next := [], [], 0;
      signals, cancelled, latest := [], {}, now;
    }

    method PruneExpiredTombstones(now: int)
      modifies this`cancelledWorkflows
      ensures cancelledWorkflows == Prune(old(cancelledWorkflows), now)
    {
      hide Prune;
      ghost var all := cancelledWorkflows;
      ghost var front: seq<Tombstone> := [];
      ghost var k := 0;
      var i := 0;
      PruneNothing(all, now);
      while i < |cancelledWorkflows|
        invariant 0 <= k <= |all|
        invariant i == |front| && front == Prune(all[..k], now)
        invariant cancelledWorkflows == front + all[k..]
        decreases |all| - k
      {
        PruneStep(all, k, now);
        Front(front, all, k);
        if cancelledWorkflows[i].expiresAt <= now {
          cancelledWorkflows := cancelledWorkflows[..i] + cancelledWorkflows[i + 1..];
        } else {
          i := i + 1;
          front := front + [all[k]];
        }
        k := k + 1;
      }
      assert all[..k] == all && front + all[k..] == front;
    }

    method EnforceTombstoneBound()
      requires forall t | t in cancelledWorkflows :: t.key != ""
      modifies this`cancelledWorkflows
      ensures cancelledWorkflows == Evict(old(cancelledWorkflows))
    {
      while |cancelledWorkflows| > MAX_TOMBSTONES
        invariant Evict(cancelledWorkflows) == Evict(old(cancelledWorkflows))
        invariant forall t | t in cancelledWorkflows :: t.key != ""
        decreases |cancelledWorkflows|
      {
        cancelledWorkflows := cancelledWorkflows[1..];
      }
    }

    method IsWorkflowCancelled(w: Workflow, t1: int, t2: int) returns (b: bool)
      modifies this`cancelledWorkflows
      ensures cancelledWorkflows == Prune(old(cancelledWorkflows), t1)
      ensures b == Live(cancelledWorkflows, WorkflowKey(w), t2)
    {
      PruneExpiredTombstones(t1);
      b := Live(cancelledWorkflows, WorkflowKey(w), t2);
    }

    /** Calls the callback of an entry unless that has been done before. */
    method SignalEntry(i: nat) returns (o: SignalOutcome)
      requires i < |active|
      modifies this`active, this`signals
      ensures active == old(active)[i := old(active)[i].(cancelRequested := true)]
      ensures o.ALREADY_SIGNALLED? <==> old(active)[i].cancelRequested
      ensures o.FAILED? ==> active[i].input.throws
      ensures o.SIGNALLED? ==> !active[i].input.throws
      ensures signals == old(signals) + if o.ALREADY_SIGNALLED? then [] else [Signal(active[i].serial, WorkflowOf(active[i].input))]
    {
      if active[i].cancelRequested {
        assert active[i := active[i].(cancelRequested := true)] == active;
        return ALREADY_SIGNALLED;
      }
      active := active[i := active[i].(cancelRequested := true)];
      signals := signals + [Signal(active[i].serial, WorkflowOf(active[i].input))];
      o := if active[i].input.throws then FAILED else SIGNALLED;
    }

    method RegisterExecution(r: Registration, t1: int, t2: int, t3: int) returns (o: Outcome)
      requires Valid() && latest <= t1 <= t2 <= t3
      modifies this
      ensures Valid() && Contents() == Register(old(Contents()), r, t1, t2, t3)
      ensures o == RegisterOutcome(old(Contents()), r)
    {
      RegisterKeeps(Contents(), r, t1, t2, t3);
      hide Inv, Prune, Live, Sound, EntriesOk, SignalsOk, Caused, ExecutionKey, ValidRegistration, WorkflowKey, HasKey;
      if !ValidRegistration(r) {
        return Invalid;
      }
      PruneExpiredTombstones(t1);
      if HasKey(active, ExecutionKey(r)) {
        latest := t1;
        return Duplicate;
      }
      var serial := Enrol(r, t2, t3);
      latest := t3;
      return Registered(serial);
    }

    /** Adds an entry and signals it at once when its workflow is already cancelled. */
    method Enrol(r: Registration, t2: int, t3: int) returns (serial: nat)
      modifies this`active, this`next, this`cancelledWorkflows, this`signals
      ensures serial == old(next) && next == old(next) + 1
      ensures cancelledWorkflows == Prune(old(cancelledWorkflows), t2)
      ensures var hit := Live(cancelledWorkflows, WorkflowKey(WorkflowOf(r)), t3);
              && active == old(active) + [Entry(old(next), r, hit)]
              && signals == old(signals) + if hit then [Signal(old(next), WorkflowOf(r))] else []
    {
      hide Prune, Live, WorkflowKey;
      serial := next;
      active := active + [Entry(serial, r, false)];
      next := next + 1;
      var hit := IsWorkflowCancelled(WorkflowOf(r), t2, t3);
      if hit {
        ReplaceLast(old(active), Entry(serial, r, false), Entry(serial, r, true));
        var _ := SignalEntry(|active| - 1);
      }
    }

    method CancelAll(w: Workflow) returns (report: Report)
      requires EntriesOk(active, next)
      modifies this`active, this`signals
      ensures active == Marked(old(active), w)
      ensures signals == old(signals) + SignalsOf(Unsignalled(Matching(old(active), w)))
      ensures report == ReportOf(Matching(old(active), w))
    {
      hide EntriesOk, Unsignalled, Matching, ReportOf;
      var matches := Matching(active, w);
      ghost var a := active;
      MatchesUnique(a, w, next);
      var ids: seq<string> := [];
      var attempts, failures := 0, 0;
      assert matches[..0] == [] && MarkSet(a, {}) == a;
      NothingYet();
      for k := 0 to |matches|
        invariant active == MarkSet(a, SerialSet(matches[..k]))
        invariant signals == old(signals) + SignalsOf(Unsignalled(matches[..k]))
        invariant attempts == ReportOf(matches[..k]).attempts && failures == ReportOf(matches[..k]).failures && ids == ReportOf(matches[..k]).ids
      {
        var i := Position(a, active, matches[k], SerialSet(matches[..k]));
        NotYetVisited(matches, k);
        FlagUntouched(a, SerialSet(matches[..k]), matches[k], i);
        ReportGrows(matches, k);
        OneMoreMatch(matches, k);
        MarkAt(a, SerialSet(matches[..k]), i);
        var o := SignalEntry(i);
        if o.SIGNALLED? {
          attempts := attempts + 1;
          if |ids| < MAX_REPORTED {
            ids := ids + [matches[k].input.executionId];
          }
        }
        if o.FAILED? {
          attempts := attempts + 1;
          failures := failures + 1;
        }
      }
      assert matches[..|matches|] == matches;
      MarkMatches(a, w);
      report := Report(|matches|, attempts, failures, ids);
      ReportMatched(matches);
    }

    /** Finds the object that a match refers to. */
    method Position(ghost a: seq<Entry>, current: seq<Entry>, m: Entry, ghost done: set<nat>) returns (i: nat)
      requires m in a && current == MarkSet(a, done)
      ensures i < |current| && current[i].serial == m.serial
    {
      ghost var j :| 0 <= j < |a| && a[j] == m;
      i := 0;
      while current[i].serial != m.serial
        invariant 0 <= i <= j
        decreases j - i
      {
        assert i != j by { assert current[j].serial == m.serial; }
        i := i + 1;
      }
    }

    method CancelWorkflowRun(w: Workflow, t1: int, t2: int) returns (report: Option<Report>)
      requires Valid() && latest <= t1 <= t2
      modifies this
      ensures Valid() && Contents() == CancelWorkflow(old(Contents()), w, t1, t2)
      ensures report == if ValidWorkflow(w) then Some(ReportOf(Matching(old(active), w))) else None
    {
      CancelKeeps(Contents(), w, t1, t2);
      TombstoneKeys(Contents(), t1);
      if !ValidWorkflow(w) {
        return None;
      }
      PruneExpiredTombstones(t1);
      var key := WorkflowKey(w);
      hide Inv, Prune, Sound, SignalsOk, Caused, WorkflowKey, Evict, Marked, Matching, Unsignalled, SignalsOf, ReportOf;
      ghost var pruned := cancelledWorkflows;
      RemoveMembers(pruned, key);
      cancelledWorkflows := Remove(cancelledWorkflows, key);
      cancelledWorkflows := cancelledWorkflows + [Tombstone(key, t2 + TTL)];
      KeyNotEmpty(w);
      EnforceTombstoneBound();
      EntriesFrom(old(Contents()));
      var r := CancelAll(w);
      cancelled := cancelled + {w};
      latest := t2;
      report := Some(r);
    }

    /** What the function returned by a registration does, however often it is called. */
    method CloseExecution(key: string, serial: nat)
      requires Valid()
      requires forall e | e in active && e.serial == serial :: ExecutionKey(e.input) == key
      modifies this`active
      ensures Valid() && Contents() == Close(old(Contents()), serial)
    {
      CloseKeeps(Contents(), serial);
      EntriesFrom(Contents());
      ghost var before := active;
      hide Inv, ExecutionKey;
      var i := 0;
      while i < |active| && ExecutionKey(active[i].input) != key
        invariant 0 <= i <= |active|
        invariant forall k | 0 <= k < i :: ExecutionKey(active[k].input) != key
      {
        i := i + 1;
      }
      if i < |active| && active[i].serial == serial {
        KeepOthers(active, i, next);
        active := active[..i] + active[i + 1..];
      } else {
        KeepEverything(active, i, key, serial, next);
      }
    }
  }

  // ---- Lemmas for the loops ----

  lemma PruneNothing(all: seq<Tombstone>, now: int)
    ensures Prune(all[..0], now) == [] && all == [] + all[0..]
  {
  }

  /** The element after a finished front: where it is, and what remains with and without it. */
  lemma Front<T>(front: seq<T>, all: seq<T>, k: nat)
    requires k < |all|
    ensures var s := front + all[k..];
            && s[|front|] == all[k]
            && s == front + [all[k]] + all[k + 1..]
            && s[..|front|] + s[|front| + 1..] == front + all[k + 1..]
  {
  }

  lemma PruneStep(all: seq<Tombstone>, k: nat, now: int)
    requires k < |all|
    ensures Prune(all[..k + 1], now) == if all[k].expiresAt > now then Prune(all[..k], now) + [all[k]] else Prune(all[..k], now)
  {
    assert all[..k + 1][..k] == all[..k];
  }

  lemma ReplaceLast<T>(s: seq<T>, x: T, y: T)
    ensures (s + [x])[|s| := y] == s + [y]
  {
  }

  lemma NothingYet()
    ensures SerialSet([]) == {} && Unsignalled([]) == [] && SignalsOf([]) == []
    ensures ReportOf([]) == Report(0, 0, 0, [])
  {
  }

  lemma ReportMatched(matches: seq<Entry>)
    ensures ReportOf(matches).matched == |matches|
  {
  }

  lemma MarkAt(a: seq<Entry>, done: set<nat>, i: nat)
    requires UniqueSerials(a) && i < |a|
    ensures MarkSet(a, done)[i := MarkSet(a, done)[i].(cancelRequested := true)] == MarkSet(a, done + {a[i].serial})
    ensures MarkSet(a, done)[i].serial == a[i].serial
  {
  }

  lemma RemoveMembers(ts: seq<Tombstone>, key: string)
    ensures forall t | t in Remove(ts, key) :: t in ts
  {
    KeepMember(ts, (t: Tombstone) => t.key != key);
  }

  lemma KeyNotEmpty(w: Workflow)
    ensures WorkflowKey(w) != ""
  {
  }

  lemma TombstoneKeys(s: State, now: int)
    requires Inv(s)
    ensures forall t | t in Prune(s.tombstones, now) :: t.key != ""
  {
    KeepMember(s.tombstones, (t: Tombstone) => t.expiresAt > now);
    forall t | t in s.tombstones ensures t.key != "" {
      assert SomeCancelled(s.cancelled, t.key);
    }
  }

  lemma EntriesFrom(s: State)
    requires Inv(s)
    ensures EntriesOk(s.active, s.next)
  {
  }

  lemma {:induction false} KeepAll<T>(s: seq<T>, f: T -> bool)
    requires forall x | x in s :: f(x)
    ensures Keep(s, f) == s
  {
    if s != [] {
      var init, last := s[..|s| - 1], s[|s| - 1];
      assert s == init + [last] && last in s;
      assert forall x | x in init :: x in s;
      KeepAll(init, f);
    }
  }

  lemma {:induction false} KeepAllBut<T>(s: seq<T>, i: nat, f: T -> bool)
    requires i < |s| && !f(s[i]) && forall j | 0 <= j < |s| && j != i :: f(s[j])
    ensures Keep(s, f) == s[..i] + s[i + 1..]
    decreases |s|
  {
    var n := |s| - 1;
    var init := s[..n];
    if i == n {
      KeepAll(init, f);
    } else {
      KeepAllBut(init, i, f);
      assert s[i + 1..] == init[i + 1..] + [s[n]];
    }
  }

  lemma KeepOthers(active: seq<Entry>, i: nat, next: nat)
    requires EntriesOk(active, next) && i < |active|
    ensures Keep(active, (e: Entry) => e.serial != active[i].serial) == active[..i] + active[i + 1..]
  {
    hide Keep, ExecutionKey, ValidRegistration;
    KeepAllBut(active, i, (e: Entry) => e.serial != active[i].serial);
  }

  lemma KeepEverything(active: seq<Entry>, i: nat, key: string, serial: nat, next: nat)
    requires EntriesOk(active, next) && i <= |active|
    requires forall k | 0 <= k < i :: ExecutionKey(active[k].input) != key
    requires i < |active| ==> ExecutionKey(active[i].input) == key && active[i].serial != serial
    requires forall e | e in active && e.serial == serial :: ExecutionKey(e.input) == key
    ensures Keep(active, (e: Entry) => e.serial != serial) == active
  {
    forall e | e in active ensures e.serial != serial {
      var k :| 0 <= k < |active| && active[k] == e;
    }
    KeepAll(active, (e: Entry) => e.serial != serial);
  }
}
