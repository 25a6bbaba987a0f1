/** The cancellation registry when callbacks call back into it. A cancellation is not one step but a loop
    over a snapshot of its matches; between any two of its signals anything else may happen: further
    cancellations with loops of their own, registrations, closings. Nested calls are some of these
    interleavings. Flags belong to the registered objects, which outlive their place in the table. */
module CancellationReentrancy {
  import opened Strings
  import opened Cancellation

  datatype Object = Object(input: Registration, cancelRequested: bool)

  /** A running loop of `cancelWorkflow`: its snapshot, and how far it has come. */
  datatype Loop = Loop(matches: seq<nat>, position: nat)

  datatype World = World(
    objects: map<nat, Object>, active: seq<nat>, tombstones: seq<Tombstone>, next: nat, latest: int, loops: seq<Loop>, calls: seq<nat>)

  function Fresh(now: int): World {
    World(map[], [], [], 0, now, [], [])
  }

  datatype Move =
    | Enters(input: Registration, t1: int, t2: int, t3: int)
    | Begins(workflow: Workflow, t1: int, t2: int)
    | Continues(loop: nat)
    | Leaves(serial: nat)

  predicate Taken(w: World, key: string) {
    exists k | k in w.active && k in w.objects :: ExecutionKey(w.objects[k].input) == key
  }

  function Enter(w: World, r: Registration, t1: int, t2: int, t3: int): World {
    if !ValidRegistration(r) then w
    else if Taken(w, ExecutionKey(r)) then w.(tombstones := Prune(w.tombstones, t1), latest := t1)
    else
      var ts := Prune(Prune(w.tombstones, t1), t2);
      var hit := Live(ts, WorkflowKey(WorkflowOf(r)), t3);
      w.(objects := w.objects[w.next := Object(r, hit)], active := w.active + [w.next], tombstones := ts, next := w.next + 1,
         latest := t3, calls := w.calls + if hit then [w.next] else [])
  }

  function Snapshot(w: World, x: Workflow): seq<nat> {
    Keep(w.active, (k: nat) => k in w.objects && WorkflowOf(w.objects[k].input) == x)
  }

  /** Everything that `cancelWorkflow` does before its loop. */
  function Begin(w: World, x: Workflow, t1: int, t2: int): World {
    if !ValidWorkflow(x) then w
    else w.(tombstones := Arm(Prune(w.tombstones, t1), WorkflowKey(x), t2 + TTL), latest := t2, loops := w.loops + [Loop(Snapshot(w, x), 0)])
  }

  /** One turn of a loop: the flag is set before the callback runs. */
  function Continue(w: World, i: nat): World {
    if i >= |w.loops| || w.loops[i].position >= |w.loops[i].matches| then w
    else
      var l := w.loops[i];
      var k := l.matches[l.position];
      var turned := w.(loops := w.loops[i := l.(position := l.position + 1)]);
      if k !in w.objects || w.objects[k].cancelRequested then turned
      else turned.(objects := w.objects[k := w.objects[k].(cancelRequested := true)], calls := w.calls + [k])
  }

  function Go(w: World, m: Move): World {
    match m
    case Enters(r, t1, t2, t3) => if w.latest <= t1 <= t2 <= t3 then Enter(w, r, t1, t2, t3) else w
    case Begins(x, t1, t2) => if w.latest <= t1 <= t2 then Begin(w, x, t1, t2) else w
    case Continues(i) => Continue(w, i)
    case Leaves(serial) => w.(active := Keep(w.active, (k: nat) => k != serial))
  }

  function Path(w: World, moves: seq<Move>): World
    decreases |moves|
  {
    if moves == [] then w else Path(Go(w, moves[0]), moves[1..])
  }

  // ---- At most once, and every match ----

  predicate Known(objects: map<nat, Object>, ks: seq<nat>) {
    forall i | 0 <= i < |ks| :: ks[i] in objects
  }

  predicate NoRepeats(ks: seq<nat>) {
    forall i, j | 0 <= i < j < |ks| :: ks[i] != ks[j]
  }

  /** Everything before the loop's position has been called. */
  predicate LoopOk(w: World, l: Loop) {
    && Known(w.objects, l.matches) && l.position <= |l.matches|
    && forall i | 0 <= i < l.position :: l.matches[i] in w.calls
  }

  ghost predicate Ok(w: World) {
    && Known(w.objects, w.active) && Known(w.objects, w.calls) && NoRepeats(w.calls)
    && (forall k | k in w.objects :: k < w.next && (w.objects[k].cancelRequested <==> k in w.calls))
    && forall i | 0 <= i < |w.loops| :: LoopOk(w, w.loops[i])
  }

  lemma EnterOk(w: World, r: Registration, t1: int, t2: int, t3: int)
    requires Ok(w)
    ensures Ok(Enter(w, r, t1, t2, t3))
  {
    hide Prune, Live, ExecutionKey, WorkflowKey, ValidRegistration, Taken;
    var z := Enter(w, r, t1, t2, t3);
    assert forall i | 0 <= i < |w.calls| :: w.calls[i] in w.calls && w.calls[i] < w.next;
    forall i | 0 <= i < |z.loops| ensures LoopOk(z, z.loops[i]) {
      assert LoopOk(w, w.loops[i]);
    }
  }

  lemma BeginOk(w: World, x: Workflow, t1: int, t2: int)
    requires Ok(w)
    ensures Ok(Begin(w, x, t1, t2))
  {
    hide Prune, Arm, WorkflowKey, Keep;
    var z := Begin(w, x, t1, t2);
    if ValidWorkflow(x) {
      KeepMember(w.active, (k: nat) => k in w.objects && WorkflowOf(w.objects[k].input) == x);
      assert forall i | 0 <= i < |Snapshot(w, x)| :: Snapshot(w, x)[i] in Snapshot(w, x);
      forall i | 0 <= i < |z.loops| ensures LoopOk(z, z.loops[i]) {
        assert i < |w.loops| ==> LoopOk(w, w.loops[i]);
      }
    }
  }

  lemma ContinueOk(w: World, n: nat)
    requires Ok(w)
    ensures Ok(Continue(w, n)) && Continue(w, n).objects.Keys == w.objects.Keys
  {
    var z := Continue(w, n);
    if z != w {
      var l := w.loops[n];
      assert LoopOk(w, l);
      var k := l.matches[l.position];
      assert k in z.calls;
      assert forall c | c in w.calls :: c in z.calls;
      forall i | 0 <= i < |z.loops| ensures LoopOk(z, z.loops[i]) {
        assert LoopOk(w, w.loops[i]);
      }
      assert forall i | 0 <= i < |w.calls| :: w.calls[i] in w.calls;
    }
  }

  lemma GoOk(w: World, m: Move)
    requires Ok(w)
    ensures Ok(Go(w, m))
  {
    hide Ok, Enter, Begin, Continue;
    match m
    case Enters(r, t1, t2, t3) => EnterOk(w, r, t1, t2, t3);
    case Begins(x, t1, t2) => BeginOk(w, x, t1, t2);
    case Continues(i) => ContinueOk(w, i);
    case Leaves(serial) => LeaveOk(w, serial);
  }

  lemma LeaveOk(w: World, serial: nat)
    requires Ok(w)
    ensures Ok(w.(active := Keep(w.active, (k: nat) => k != serial)))
  {
    hide Keep;
    var z := w.(active := Keep(w.active, (k: nat) => k != serial));
    KeepMember(w.active, (k: nat) => k != serial);
    assert forall i | 0 <= i < |z.active| :: z.active[i] in z.active;
    assert forall i | 0 <= i < |w.active| :: w.active[i] in w.objects;
    forall i | 0 <= i < |z.loops| ensures LoopOk(z, z.loops[i]) {
      assert LoopOk(w, w.loops[i]);
    }
  }

  lemma {:induction false} PathOk(w: World, moves: seq<Move>)
    requires Ok(w)
    ensures Ok(Path(w, moves))
    decreases |moves|
  {
    hide Ok, Go;
    if moves != [] {
      GoOk(w, moves[0]);
      PathOk(Go(w, moves[0]), moves[1..]);
    }
  }

  /** However calls nest, no callback is called twice, and a loop that has run to its end has called
      everything of its snapshot that was not called before. */
  lemma CalledOnceEach(now: int, moves: seq<Move>)
    ensures var w := Path(Fresh(now), moves);
            && NoRepeats(w.calls)
            && forall i, k | 0 <= i < |w.loops| && Finished(w.loops[i]) && k in w.loops[i].matches :: k in w.calls
  {
    PathOk(Fresh(now), moves);
    hide Go;
    var w := Path(Fresh(now), moves);
    forall i, k | 0 <= i < |w.loops| && Finished(w.loops[i]) && k in w.loops[i].matches ensures k in w.calls {
      assert LoopOk(w, w.loops[i]);
    }
  }

  predicate Finished(l: Loop) {
    l.position == |l.matches|
  }

  /** What was called stays called. */
  lemma {:induction false} CallsStay(w: World, moves: seq<Move>)
    ensures w.calls <= Path(w, moves).calls
    decreases |moves|
  {
    hide Prune, Arm, Live, Keep;
    if moves != [] {
      CallsStay(Go(w, moves[0]), moves[1..]);
      assert w.calls <= Go(w, moves[0]).calls;
    }
  }

  /** The snapshot of a loop is every execution of its workflow that was active when it began. */
  lemma SnapshotExactly(now: int, moves: seq<Move>, x: Workflow, k: nat)
    ensures var w := Path(Fresh(now), moves);
            k in Snapshot(w, x) <==> k in w.active && k in w.objects && WorkflowOf(w.objects[k].input) == x
  {
    var w := Path(Fresh(now), moves);
    hide Path;
    KeepMember(w.active, (n: nat) => n in w.objects && WorkflowOf(w.objects[n].input) == x);
  }

  // ---- The same tables as without re-entrancy ----

  /** The same run without the loops: every cancellation signals its matches at once. */
  function Flat(moves: seq<Move>): seq<Event> {
    if moves == [] then []
    else (match moves[0]
          case Enters(r, t1, t2, t3) => [Registers(r, t1, t2, t3)]
          case Begins(x, t1, t2) => [Cancels(x, t1, t2)]
          case Continues(_) => []
          case Leaves(serial) => [Closes(serial)]) + Flat(moves[1..])
  }

  predicate SameEntry(w: World, k: nat, e: Entry) {
    k == e.serial && k in w.objects && w.objects[k].input == e.input
  }

  /** Both have the same tombstones, clock and active executions; only flags may differ. */
  predicate Alike(w: World, s: State) {
    && w.tombstones == s.tombstones && w.latest == s.latest && w.next == s.next
    && |w.active| == |s.active| && forall i | 0 <= i < |w.active| :: SameEntry(w, w.active[i], s.active[i])
  }

  lemma TakenAlike(w: World, s: State, key: string)
    requires Alike(w, s)
    ensures Taken(w, key) <==> HasKey(s.active, key)
  {
    hide ExecutionKey;
    if Taken(w, key) {
      var k :| k in w.active && k in w.objects && ExecutionKey(w.objects[k].input) == key;
      var i :| 0 <= i < |w.active| && w.active[i] == k;
      assert SameEntry(w, w.active[i], s.active[i]) && s.active[i] in s.active;
    }
    if HasKey(s.active, key) {
      var e :| e in s.active && ExecutionKey(e.input) == key;
      var i :| 0 <= i < |s.active| && s.active[i] == e;
      assert SameEntry(w, w.active[i], s.active[i]) && w.active[i] in w.active;
    }
  }

  lemma EnterAlike(w: World, s: State, r: Registration, t1: int, t2: int, t3: int)
    requires Alike(w, s) && Ok(w)
    ensures Alike(Enter(w, r, t1, t2, t3), Register(s, r, t1, t2, t3))
    ensures RegisterOutcome(s, r).Registered? ==>
              (s.next in Enter(w, r, t1, t2, t3).calls <==> Live(Prune(Prune(s.tombstones, t1), t2), WorkflowKey(WorkflowOf(r)), t3))
  {
    TakenAlike(w, s, ExecutionKey(r));
    hide Prune, Live, ExecutionKey, WorkflowKey, ValidRegistration, Taken, HasKey;
    var z, y := Enter(w, r, t1, t2, t3), Register(s, r, t1, t2, t3);
    assert forall i | 0 <= i < |w.calls| :: w.calls[i] in w.objects;
    assert forall i | 0 <= i < |w.active| :: SameEntry(w, w.active[i], s.active[i]) && w.active[i] in w.objects && w.active[i] < w.next;
  }

  lemma {:induction false} KeepAlike(w: World, ks: seq<nat>, es: seq<Entry>, serial: nat)
    requires |ks| == |es| && forall i | 0 <= i < |ks| :: SameEntry(w, ks[i], es[i])
    ensures var a, b := Keep(ks, (k: nat) => k != serial), Keep(es, (e: Entry) => e.serial != serial);
            |a| == |b| && forall i | 0 <= i < |a| :: SameEntry(w, a[i], b[i])
    decreases |ks|
  {
    if ks != [] {
      var n := |ks| - 1;
      KeepAlike(w, ks[..n], es[..n], serial);
      assert SameEntry(w, ks[n], es[n]);
    }
  }

  lemma LeaveAlike(w: World, s: State, serial: nat)
    requires Alike(w, s)
    ensures Alike(Go(w, Leaves(serial)), Close(s, serial))
  {
    KeepAlike(w, w.active, s.active, serial);
    hide Keep;
    var z, y := Go(w, Leaves(serial)), Close(s, serial);
    forall i | 0 <= i < |z.active| ensures SameEntry(z, z.active[i], y.active[i]) {
      assert SameEntry(w, z.active[i], y.active[i]);
    }
  }

  lemma BeginAlike(w: World, s: State, x: Workflow, t1: int, t2: int)
    requires Alike(w, s)
    ensures Alike(Begin(w, x, t1, t2), CancelWorkflow(s, x, t1, t2))
  {
    hide Prune, Arm, WorkflowKey, Snapshot, SignalsOf;
    assert forall i | 0 <= i < |s.active| :: SameEntry(w, w.active[i], s.active[i]);
  }

  lemma ContinueAlike(w: World, s: State, n: nat)
    requires Alike(w, s)
    ensures Alike(Continue(w, n), s)
  {
    assert forall i | 0 <= i < |s.active| :: SameEntry(w, w.active[i], s.active[i]);
  }

  lemma {:induction false} PathAlike(w: World, s: State, moves: seq<Move>)
    requires Alike(w, s) && Ok(w)
    ensures Alike(Path(w, moves), Run(s, Flat(moves)))
    decreases |moves|
  {
    hide Alike, Ok, Enter, Begin, Continue, Register, CancelWorkflow, Close;
    if moves != [] {
      var m := moves[0];
      GoOk(w, m);
      SameClock(w, s);
      var rest := Flat(moves[1..]);
      match m
      case Enters(r, t1, t2, t3) =>
        EnterAlike(w, s, r, t1, t2, t3);
        OneEvent(s, Registers(r, t1, t2, t3), rest);
        PathAlike(Go(w, m), Step(s, Registers(r, t1, t2, t3)), moves[1..]);
      case Begins(x, t1, t2) =>
        BeginAlike(w, s, x, t1, t2);
        OneEvent(s, Cancels(x, t1, t2), rest);
        PathAlike(Go(w, m), Step(s, Cancels(x, t1, t2)), moves[1..]);
      case Continues(i) =>
        ContinueAlike(w, s, i);
        assert [] + rest == rest;
        PathAlike(Go(w, m), s, moves[1..]);
      case Leaves(serial) =>
        LeaveAlike(w, s, serial);
        OneEvent(s, Closes(serial), rest);
        PathAlike(Go(w, m), Step(s, Closes(serial)), moves[1..]);
    }
  }

  lemma SameClock(w: World, s: State)
    requires Alike(w, s)
    ensures w.latest == s.latest
  {
  }

  lemma OneEvent(s: State, e: Event, rest: seq<Event>)
    ensures Run(s, [e] + rest) == Run(Step(s, e), rest)
  {
    hide Step;
    assert ([e] + rest)[1..] == rest;
  }

  /** Deferred cancellation survives re-entrancy: whatever callbacks do in between, an execution that
      registers before expiry and with fewer than 1000 other keys cancelled since is called back. */
  lemma LateEntryIsCalled(now: int, before: seq<Move>, x: Workflow, t1: int, t: int, between: seq<Move>,
                          r: Registration, u1: int, u2: int, u3: int)
    requires ValidWorkflow(x) && WorkflowOf(r) == x && Path(Fresh(now), before).latest <= t1 <= t
    requires var w := Path(Go(Path(Fresh(now), before), Begins(x, t1, t)), between);
             w.latest <= u1 <= u2 <= u3 < t + TTL && ValidRegistration(r) && !Taken(w, ExecutionKey(r))
    requires |OtherKeys(Step(Run(Init(now), Flat(before)), Cancels(x, t1, t)), Flat(between), WorkflowKey(x))| < MAX_TOMBSTONES
    ensures var w := Path(Go(Path(Fresh(now), before), Begins(x, t1, t)), between);
            w.next in Go(w, Enters(r, u1, u2, u3)).calls
  {
    hide Ok, Enter, Begin, Continue, Register, CancelWorkflow, Inv, ExecutionKey, WorkflowKey, Live, Prune, Armed, ValidRegistration, Taken;
    StartAlike(now);
    PathAlike(Fresh(now), Init(now), before);
    PathOk(Fresh(now), before);
    var w0, s0 := Path(Fresh(now), before), Run(Init(now), Flat(before));
    assert w0.latest == s0.latest;
    RunKeeps(Init(now), Flat(before));
    var w1, s1 := Go(w0, Begins(x, t1, t)), Step(s0, Cancels(x, t1, t));
    hide Alike;
    BeginAlike(w0, s0, x, t1, t);
    GoOk(w0, Begins(x, t1, t));
    CancelArms(s0, x, t1, t);
    StepKeeps(s0, Cancels(x, t1, t));
    PathAlike(w1, s1, between);
    PathOk(w1, between);
    CancelClock(s0, x, t1, t);
    EntryIsCalled(Path(w1, between), s1, between, x, t, r, u1, u2, u3);
  }

  lemma CancelClock(s: State, x: Workflow, t1: int, t: int)
    requires ValidWorkflow(x)
    ensures CancelWorkflow(s, x, t1, t).latest == t
  {
  }

  lemma StartAlike(now: int)
    ensures Alike(Fresh(now), Init(now)) && Ok(Fresh(now)) && Inv(Init(now))
  {
  }

  lemma EntryIsCalled(w: World, s: State, between: seq<Move>, x: Workflow, t: int, r: Registration, u1: int, u2: int, u3: int)
    requires Inv(s) && s.latest == t && Armed(s.tombstones, WorkflowKey(x), t + TTL, {}) && WorkflowOf(r) == x
    requires Ok(w) && Alike(w, Run(s, Flat(between)))
    requires w.latest <= u1 <= u2 <= u3 < t + TTL && ValidRegistration(r) && !Taken(w, ExecutionKey(r))
    requires |OtherKeys(s, Flat(between), WorkflowKey(x))| < MAX_TOMBSTONES
    ensures w.next in Go(w, Enters(r, u1, u2, u3)).calls
  {
    hide Ok, Register, Inv, ExecutionKey, WorkflowKey, Live, Prune, Armed, ValidRegistration, Taken, HasKey, OtherKeys, Run;
    var others := OtherKeys(s, Flat(between), WorkflowKey(x));
    assert {} + others == others;
    var y := Run(s, Flat(between));
    StaysArmed(s, Flat(between), WorkflowKey(x), t + TTL, {});
    TakenAlike(w, y, ExecutionKey(r));
    EnterAlike(w, y, r, u1, u2, u3);
    hide Enter, Alike;
    PruneArmed(y.tombstones, u1, WorkflowKey(x), t + TTL, others);
    PruneArmed(Prune(y.tombstones, u1), u2, WorkflowKey(x), t + TTL, others);
    ArmedIsLive(Prune(Prune(y.tombstones, u1), u2), WorkflowKey(x), t + TTL, others, u3);
  }
}
