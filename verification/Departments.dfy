/** Departments and their hierarchy: creation, update, and the walk that rejects cycles. */
module Departments {
  import opened Strings
  import opened Hierarchy

  // ---- Data ----

  datatype Department = Department(
    organizationId: string, workforceInstanceId: string, parent: Option<string>, manager: Option<string>, code: string, name: string)

  type Rows = map<string, Department>

  /** Rows of other tables that the checks consult. */
  datatype Member = Member(organizationId: string, workforceInstanceId: string)
  datatype World = World(workforces: map<string, string>, employees: map<string, Member>)

  /** A field of an update: left alone, cleared, or set. */
  datatype Change = Keep | Clear | Set(value: string)

  datatype Creation = Creation(workforceInstanceId: string, parent: Option<string>, manager: Option<string>, code: string, name: string)

  datatype Update = Update(parent: Change, manager: Change, name: Option<string>)

  datatype Answer = Done | NotFound | Unprocessable | Conflict | ForeignKeyViolation

  /** The parent pointers that one organization's walk can see; an empty parent ends the walk. */
  function Visible(rows: Rows, organizationId: string): Graph {
    map id | id in rows && rows[id].organizationId == organizationId :: Pointer(rows[id].parent)
  }

  function Pointer(p: Option<string>): Option<string> {
    if p == Some("") then None else p
  }

  /** All parent pointers. */
  function Pointers(rows: Rows): Graph {
    map id | id in rows :: rows[id].parent
  }

  // ---- The cycle check ----

  datatype WalkResult = Fine | WouldCloseCycle | AlreadyCyclic

  /** Terminates on every finite table, cyclic or not, and finds the department exactly when the walk
      from the candidate leads to it. */
  method AssertNoCycle(rows: Rows, organizationId: string, departmentId: string, candidate: string) returns (r: WalkResult)
    requires candidate != ""
    ensures r.WouldCloseCycle? <==> Reaches(Visible(rows, organizationId), candidate, departmentId)
    ensures r.Fine? <==> !Reaches(Visible(rows, organizationId), candidate, departmentId) && Grounded(Visible(rows, organizationId), candidate)
  {
    hide Tracks, Grounded;
    var cursor := Some(candidate);
    var visited: set<string> := {};
    ghost var g := Visible(rows, organizationId);
    ghost var k: nat := 0;
    TracksNothing(g, candidate);
    while cursor.Some?
      invariant cursor == Anc(g, candidate, k)
      invariant cursor != Some("")
      invariant Tracks(g, candidate, k, visited)
      invariant departmentId !in visited
      decreases |g.Keys - visited|, if cursor.Some? then 1 else 0
    {
      var c := cursor.value;
      if c == departmentId {
        return WouldCloseCycle;
      }
      if c in visited {
        WalkReturned(g, candidate, departmentId, k, visited);
        return AlreadyCyclic;
      }
      TracksMore(g, candidate, k, visited);
      ghost var before := visited;
      visited := visited + {c};
      cursor := if c in rows && rows[c].organizationId == organizationId then Pointer(rows[c].parent) else None;
      NextAncestor(g, candidate, k);
      if c in g {
        Shrinks(g.Keys, before, c);
      } else {
        assert g.Keys - visited == g.Keys - before;
      }
      k := k + 1;
    }
    WalkEnded(g, candidate, departmentId, k, visited);
    return Fine;
  }

  lemma NextAncestor(g: Graph, id: string, k: nat)
    requires Anc(g, id, k).Some?
    ensures Anc(g, id, k + 1) == Up(g, Anc(g, id, k).value)
  {
    AncAdd(g, id, k, 1);
    OneUp(g, Anc(g, id, k).value);
  }

  /** `visited` holds the first `k` nodes of the walk. */
  ghost predicate Tracks(g: Graph, id: string, k: nat, visited: set<string>) {
    forall x :: x in visited <==> Visited(g, id, k, x)
  }

  lemma TracksNothing(g: Graph, id: string)
    ensures Tracks(g, id, 0, {})
  {
  }

  lemma TracksMore(g: Graph, id: string, k: nat, visited: set<string>)
    requires Anc(g, id, k).Some? && Tracks(g, id, k, visited)
    ensures Tracks(g, id, k + 1, visited + {Anc(g, id, k).value})
  {
    hide Anc;
    var c := Anc(g, id, k).value;
    forall x ensures x in visited + {c} <==> Visited(g, id, k + 1, x) {
      if x in visited {
        var i: nat :| i < k && Anc(g, id, i) == Some(x);
      }
      if Visited(g, id, k + 1, x) && x != c {
        var i: nat :| i < k + 1 && Anc(g, id, i) == Some(x);
        assert Visited(g, id, k, x);
      }
    }
  }

  lemma WalkReturned(g: Graph, id: string, target: string, k: nat, visited: set<string>)
    requires Tracks(g, id, k, visited) && Anc(g, id, k).Some? && Anc(g, id, k).value in visited
    requires target !in visited && Anc(g, id, k) != Some(target)
    ensures !Reaches(g, id, target) && !Grounded(g, id)
  {
    assert Visited(g, id, k, Anc(g, id, k).value) && !Visited(g, id, k, target);
    ReturnedAvoids(g, id, target, k);
  }

  /** A walk that returns to a visited node without having met the target never will, and never ends. */
  lemma ReturnedAvoids(g: Graph, id: string, target: string, k: nat)
    requires Anc(g, id, k).Some? && Visited(g, id, k, Anc(g, id, k).value)
    requires !Visited(g, id, k, target) && Anc(g, id, k) != Some(target)
    ensures !Reaches(g, id, target) && !Grounded(g, id)
  {
    var x := Anc(g, id, k).value;
    var i: nat :| i < k && Anc(g, id, i) == Some(x);
    AncAdd(g, id, i, k - i);
    forall n: nat ensures Anc(g, id, n).Some? && Anc(g, id, n) != Some(target) {
      if n < i {
        AncAdd(g, id, n, k - n);
      } else {
        var m := LoopRepeats(g, x, k - i, n - i);
        AncAdd(g, id, i, n - i);
        AncAdd(g, id, i, m);
        AncAdd(g, id, i + m, k - (i + m));
      }
    }
  }

  lemma WalkEnded(g: Graph, id: string, target: string, k: nat, visited: set<string>)
    requires Tracks(g, id, k, visited) && Anc(g, id, k).None? && target !in visited
    ensures !Reaches(g, id, target) && Grounded(g, id)
  {
    forall n: nat ensures Anc(g, id, n) != Some(target) {
      if n >= k {
        AncAdd(g, id, k, n - k);
      }
    }
  }

  // ---- The operations ----

  predicate SameWorkforce(rows: Rows, organizationId: string, workforceInstanceId: string, id: string) {
    id in rows && rows[id].organizationId == organizationId && rows[id].workforceInstanceId == workforceInstanceId
  }

  predicate ManagerOk(world: World, organizationId: string, workforceInstanceId: string, manager: Option<string>) {
    manager.None? || manager == Some("")
    || (manager.value in world.employees && world.employees[manager.value] == Member(organizationId, workforceInstanceId))
  }

  /** The foreign keys that the database itself enforces on a written row. */
  predicate KeysOk(rows: Rows, world: World, d: Department) {
    && (d.parent.Some? ==> d.parent.value in rows)
    && (d.manager.Some? ==> d.manager.value in world.employees)
  }

  predicate CodeTaken(rows: Rows, workforceInstanceId: string, code: string) {
    exists id | id in rows :: rows[id].workforceInstanceId == workforceInstanceId && rows[id].code == code
  }

  function Apply(current: Option<string>, c: Change): Option<string> {
    match c
    case Keep => current
    case Clear => None
    case Set(v) => Some(v)
  }

  function Requested(c: Change): Option<string> {
    if c.Set? then Some(c.value) else None
  }

  function NewDepartment(organizationId: string, c: Creation): Department {
    Department(organizationId, c.workforceInstanceId, c.parent, c.manager, c.code, c.name)
  }

  function Changed(d: Department, u: Update): Department {
    d.(parent := Apply(d.parent, u.parent), manager := Apply(d.manager, u.manager), name := if u.name.Some? then u.name.value else d.name)
  }

  /** A field after a change: as it was, empty, or the new value. */
  predicate FieldAfter(before: Option<string>, after: Option<string>, c: Change) {
    && (c == Keep ==> after == before)
    && (c == Clear ==> after == None)
    && (c.Set? ==> after == Some(c.value))
  }

  /** An update rewrites the fields it names and no other. */
  predicate Rewritten(d: Department, z: Department, u: Update) {
    && z.organizationId == d.organizationId && z.workforceInstanceId == d.workforceInstanceId && z.code == d.code
    && FieldAfter(d.parent, z.parent, u.parent) && FieldAfter(d.manager, z.manager, u.manager)
    && z.name == if u.name.None? then d.name else u.name.value
  }

  /** When a creation is accepted. */
  ghost predicate MayCreate(rows: Rows, world: World, organizationId: string, c: Creation) {
    && c.workforceInstanceId in world.workforces && world.workforces[c.workforceInstanceId] == organizationId
    && (c.parent.Some? && c.parent.value != "" ==> SameWorkforce(rows, organizationId, c.workforceInstanceId, c.parent.value))
    && ManagerOk(world, organizationId, c.workforceInstanceId, c.manager)
    && KeysOk(rows, world, NewDepartment(organizationId, c)) && !CodeTaken(rows, c.workforceInstanceId, c.code)
  }

  /** When an update is accepted: a new parent is in the same workforce, is not below the department,
      and hangs below a root. */
  ghost predicate MayUpdate(rows: Rows, world: World, organizationId: string, id: string, u: Update) {
    && id in rows && rows[id].organizationId == organizationId
    && u.parent != Set(id)
    && (u.parent.Set? && u.parent.value != "" ==>
          && SameWorkforce(rows, organizationId, rows[id].workforceInstanceId, u.parent.value)
          && !Reaches(Visible(rows, organizationId), u.parent.value, id)
          && Grounded(Visible(rows, organizationId), u.parent.value))
    && ManagerOk(world, organizationId, rows[id].workforceInstanceId, Requested(u.manager))
    && KeysOk(rows, world, Changed(rows[id], u))
  }

  class DepartmentsService {
    var rows: Rows

    constructor ()
      ensures rows == map[]
    {
      rows := map[];
    }

    /** `id` is the fresh identifier that the database assigns. */
    method Create(world: World, organizationId: string, id: string, c: Creation) returns (answer: Answer)
      requires id !in rows
      modifies this
      ensures answer.Done? <==> MayCreate(old(rows), world, organizationId, c)
      ensures rows == if answer.Done? then old(rows)[id := NewDepartment(organizationId, c)] else old(rows)
      ensures answer.Done? ==> rows[id] == Department(organizationId, c.workforceInstanceId, c.parent, c.manager, c.code, c.name)
    {
      if c.workforceInstanceId !in world.workforces || world.workforces[c.workforceInstanceId] != organizationId {
        return NotFound;
      }
      if c.parent.Some? && c.parent.value != "" && !SameWorkforce(rows, organizationId, c.workforceInstanceId, c.parent.value) {
        return NotFound;
      }
      if !ManagerOk(world, organizationId, c.workforceInstanceId, c.manager) {
        return NotFound;
      }
      var d := NewDepartment(organizationId, c);
      if CodeTaken(rows, c.workforceInstanceId, c.code) {
        return Conflict;
      }
      if !KeysOk(rows, world, d) {
        return ForeignKeyViolation;
      }
      rows := rows[id := d];
      return Done;
    }

    method UpdateDepartment(world: World, organizationId: string, id: string, u: Update) returns (answer: Answer)
      modifies this
      ensures answer.Done? <==> MayUpdate(old(rows), world, organizationId, id, u)
      ensures rows == if answer.Done? then old(rows)[id := Changed(old(rows)[id], u)] else old(rows)
      ensures answer.Done? ==> Rewritten(old(rows)[id], rows[id], u)
    {
      if id !in rows || rows[id].organizationId != organizationId {
        return NotFound;
      }
      if u.parent == Set(id) {
        return Unprocessable;
      }
      if u.parent.Set? && u.parent.value != "" {
        if !SameWorkforce(rows, organizationId, rows[id].workforceInstanceId, u.parent.value) {
          return NotFound;
        }
        var walk := AssertNoCycle(rows, organizationId, id, u.parent.value);
        if !walk.Fine? {
          return Unprocessable;
        }
      }
      if !ManagerOk(world, organizationId, rows[id].workforceInstanceId, Requested(u.manager)) {
        return NotFound;
      }
      var d := Changed(rows[id], u);
      if !KeysOk(rows, world, d) {
        return ForeignKeyViolation;
      }
      rows := rows[id := d];
      return Done;
    }
  }

  // ---- Whole histories ----

  datatype Event =
    | Creates(world: World, organizationId: string, id: string, creation: Creation)
    | Updates(world: World, organizationId: string, id: string, update: Update)

  /** The effect of one operation, taken as an atomic step. Identifiers are assigned fresh. */
  ghost function Step(rows: Rows, e: Event): Rows {
    match e
    case Creates(world, org, id, c) =>
      if id != "" && id !in rows && MayCreate(rows, world, org, c) then rows[id := NewDepartment(org, c)] else rows
    case Updates(world, org, id, u) =>
      if MayUpdate(rows, world, org, id, u) then rows[id := Changed(rows[id], u)] else rows
  }

  ghost function Run(rows: Rows, events: seq<Event>): Rows
    decreases |events|
  {
    if events == [] then rows else Run(Step(rows, events[0]), events[1..])
  }

  ghost predicate ParentsAtHome(rows: Rows) {
    && "" !in rows
    && forall id | id in rows && rows[id].parent.Some? ::
         SameWorkforce(rows, rows[id].organizationId, rows[id].workforceInstanceId, rows[id].parent.value)
  }

  ghost predicate Inv(rows: Rows) {
    ParentsAtHome(rows) && AllGrounded(Pointers(rows))
  }

  lemma VisibleIsPart(rows: Rows, organizationId: string)
    requires ParentsAtHome(rows)
    ensures PartOf(Visible(rows, organizationId), Pointers(rows)) && Closed(Pointers(rows))
  {
  }

  lemma CreateKeeps(rows: Rows, world: World, org: string, id: string, c: Creation)
    requires Inv(rows) && id != "" && id !in rows && MayCreate(rows, world, org, c)
    ensures Inv(rows[id := NewDepartment(org, c)])
  {
    var g := Pointers(rows);
    var z := rows[id := NewDepartment(org, c)];
    assert Pointers(z) == g[id := c.parent];
    VisibleIsPart(rows, org);
    if c.parent.Some? && Reaches(g, c.parent.value, id) {
      var k: nat :| Anc(g, c.parent.value, k) == Some(id);
      ClosedWalk(g, c.parent.value, k);
    }
    ReparentGrounds(g, id, c.parent);
  }

  lemma UpdateKeeps(rows: Rows, world: World, org: string, id: string, u: Update)
    requires Inv(rows) && MayUpdate(rows, world, org, id, u)
    ensures Inv(rows[id := Changed(rows[id], u)])
  {
    var g := Pointers(rows);
    var z := rows[id := Changed(rows[id], u)];
    var p := Apply(rows[id].parent, u.parent);
    assert Pointers(z) == g[id := p];
    VisibleIsPart(rows, org);
    if u.parent.Keep? {
      assert Pointers(z) == g;
    } else {
      if u.parent.Set? {
        PartReaches(Visible(rows, org), g, u.parent.value, id);
      }
      ReparentGrounds(g, id, p);
    }
  }

  lemma {:induction false} RunKeeps(rows: Rows, events: seq<Event>)
    requires Inv(rows)
    ensures Inv(Run(rows, events))
    decreases |events|
  {
    hide Inv, MayCreate, MayUpdate;
    if events != [] {
      match events[0] {
        case Creates(world, org, id, c) =>
          if id != "" && id !in rows && MayCreate(rows, world, org, c) { CreateKeeps(rows, world, org, id, c); }
        case Updates(world, org, id, u) =>
          if MayUpdate(rows, world, org, id, u) { UpdateKeeps(rows, world, org, id, u); }
      }
      RunKeeps(Step(rows, events[0]), events[1..]);
    }
  }

  /** Whatever creations and updates are made, in whatever order, the hierarchy has no cycle and every
      parent is a department of the same organization and workforce. */
  lemma HierarchyKept(events: seq<Event>)
    ensures var rows := Run(map[], events);
            && Acyclic(Pointers(rows))
            && forall id | id in rows && rows[id].parent.Some? ::
                 SameWorkforce(rows, rows[id].organizationId, rows[id].workforceInstanceId, rows[id].parent.value)
  {
    RunKeeps(map[], events);
    AcyclicExactly(Pointers(Run(map[], events)));
  }

  /** The event created this department, in a workforce of its organization. */
  predicate Founds(e: Event, id: string, d: Department) {
    && e.Creates? && e.id == id && e.organizationId == d.organizationId
    && e.creation.workforceInstanceId == d.workforceInstanceId && e.creation.code == d.code
    && e.creation.workforceInstanceId in e.world.workforces && e.world.workforces[e.creation.workforceInstanceId] == e.organizationId
  }

  /** The event wrote this parent for the department; it kept what an earlier event wrote otherwise. */
  predicate WritesParent(e: Event, id: string, parent: Option<string>) {
    e.id == id && match e
                  case Creates(_, _, _, c) => c.parent == parent
                  case Updates(_, _, _, u) => u.parent != Keep && FieldAfter(None, parent, u.parent)
  }

  /** When the event ran, the manager was an employee of that workforce. */
  predicate Employs(e: Event, id: string, manager: string, d: Department) {
    && e.id == id && manager in e.world.employees
    && e.world.employees[manager] == Member(d.organizationId, d.workforceInstanceId)
  }

  ghost predicate SameButFields(d: Department, z: Department) {
    z.organizationId == d.organizationId && z.workforceInstanceId == d.workforceInstanceId && z.code == d.code
  }

  lemma StepWrites(rows: Rows, e: Event, id: string)
    requires id in Step(rows, e)
    ensures var d := Step(rows, e)[id];
            && ((id in rows && SameButFields(rows[id], d)) || (id !in rows && Founds(e, id, d)))
            && ((id in rows && rows[id].parent == d.parent) || WritesParent(e, id, d.parent))
            && ((id in rows && rows[id].manager == d.manager) || d.manager.None? || d.manager == Some("")
                || Employs(e, id, d.manager.value, d))
  {
    hide Grounded, Reaches, KeysOk, CodeTaken, SameWorkforce, Visible;
  }

  ghost predicate Founded(events: seq<Event>, id: string, d: Department) {
    exists e | e in events :: Founds(e, id, d)
  }

  ghost predicate ParentWritten(events: seq<Event>, id: string, parent: Option<string>) {
    exists e | e in events :: WritesParent(e, id, parent)
  }

  /** No manager, an empty one, or one employed in the department's workforce when some event ran. */
  ghost predicate WellManaged(events: seq<Event>, id: string, d: Department) {
    d.manager.None? || d.manager == Some("") || exists e | e in events :: Employs(e, id, d.manager.value, d)
  }

  lemma LongerHistory(events: seq<Event>, id: string, d: Department)
    requires events != []
    ensures Founded(events[1..], id, d) ==> Founded(events, id, d)
    ensures ParentWritten(events[1..], id, d.parent) ==> ParentWritten(events, id, d.parent)
    ensures WellManaged(events[1..], id, d) ==> WellManaged(events, id, d)
  {
    hide Founds, WritesParent, Employs;
    assert forall e | e in events[1..] :: e in events;
  }

  lemma FirstEvent(events: seq<Event>, id: string, z: Department, d: Department)
    requires events != [] && SameButFields(z, d)
    ensures Founds(events[0], id, z) ==> Founded(events, id, d)
    ensures WritesParent(events[0], id, z.parent) && z.parent == d.parent ==> ParentWritten(events, id, d.parent)
    ensures z.manager == d.manager && (z.manager.None? || z.manager == Some("") || Employs(events[0], id, z.manager.value, z)) ==>
              WellManaged(events, id, d)
  {
    assert events[0] in events;
    if Founds(events[0], id, z) {
      assert Founds(events[0], id, d);
    }
    if d.manager.Some? && Employs(events[0], id, d.manager.value, z) {
      assert Employs(events[0], id, d.manager.value, d);
    }
  }

  /** Every department of any history is as events wrote it: founded once with its organization, workforce and
      code, which stay; with a parent that some event gave it; and with a manager who, when some event ran, was
      employed in its own workforce. */
  lemma {:induction false} WrittenByEvents(rows: Rows, events: seq<Event>, id: string)
    requires id in Run(rows, events)
    ensures var d := Run(rows, events)[id];
            && (if id in rows then SameButFields(rows[id], d) else Founded(events, id, d))
            && ((id in rows && rows[id].parent == d.parent) || ParentWritten(events, id, d.parent))
            && ((id in rows && rows[id].manager == d.manager) || WellManaged(events, id, d))
    decreases |events|
  {
    hide Step, Founded, ParentWritten, WellManaged, Founds, WritesParent, Employs;
    if events != [] {
      var z := Step(rows, events[0]);
      WrittenByEvents(z, events[1..], id);
      LongerHistory(events, id, Run(rows, events)[id]);
      StepKeepsRows(rows, events[0], id);
      if id in z {
        StepWrites(rows, events[0], id);
        FirstEvent(events, id, z[id], Run(rows, events)[id]);
      }
    }
  }

  lemma StepKeepsRows(rows: Rows, e: Event, id: string)
    ensures id in rows ==> id in Step(rows, e)
  {
  }

  ghost predicate CodesUnique(rows: Rows) {
    forall x, y | x in rows && y in rows && rows[x].workforceInstanceId == rows[y].workforceInstanceId
                  && rows[x].code == rows[y].code :: x == y
  }

  lemma StepKeepsCodes(rows: Rows, e: Event)
    requires CodesUnique(rows)
    ensures CodesUnique(Step(rows, e))
  {
    hide Grounded, Reaches, KeysOk, SameWorkforce, Visible, ManagerOk;
  }

  /** No two departments of a workforce have the same code, whatever the history. */
  lemma {:induction false} CodesKept(rows: Rows, events: seq<Event>)
    requires CodesUnique(rows)
    ensures CodesUnique(Run(rows, events))
    decreases |events|
  {
    hide Step, CodesUnique;
    if events != [] {
      StepKeepsCodes(rows, events[0]);
      CodesKept(Step(rows, events[0]), events[1..]);
    }
  }

  /** On a sound hierarchy the cycle check rejects nothing but cycles: moving a department under
      another of its workforce is accepted exactly when the result is acyclic. */
  lemma MoveAcceptedExactly(rows: Rows, world: World, id: string, parent: string)
    requires Inv(rows) && id in rows
    requires SameWorkforce(rows, rows[id].organizationId, rows[id].workforceInstanceId, parent)
    requires KeysOk(rows, world, rows[id])
    ensures MayUpdate(rows, world, rows[id].organizationId, id, Update(Set(parent), Keep, None))
            <==> Acyclic(Pointers(rows[id := rows[id].(parent := Some(parent))]))
  {
    var g := Pointers(rows);
    var org := rows[id].organizationId;
    var z := rows[id := rows[id].(parent := Some(parent))];
    assert Pointers(z) == g[id := Some(parent)];
    VisibleIsPart(rows, org);
    PartReaches(Visible(rows, org), g, parent, id);
    AcyclicExactly(Pointers(z));
    if Reaches(g, parent, id) {
      ReparentCloses(g, id, parent);
    } else {
      ReparentGrounds(g, id, Some(parent));
      assert parent != id by { assert Anc(g, id, 0) == Some(id); }
    }
  }
}
