/** The trees of the organization chart, built from flat lists of records with parent pointers. The
    department tree and the reporting tree of positions are built in the same way. */
module OrgChart {
  import opened Strings
  import opened Hierarchy
  import Departments

  datatype Record = Record(id: string, parent: Option<string>)

  datatype Node = Node(record: Record, children: seq<Node>)

  predicate UniqueIds(list: seq<Record>) {
    forall i, j | 0 <= i < |list| && 0 <= j < |list| && list[i].id == list[j].id :: i == j
  }

  function GraphOf(list: seq<Record>): Graph
    requires UniqueIds(list)
  {
    map r | r in list :: r.id := r.parent
  }

  // ---- Grouping by parent ----

  /** The records under one key, in list order. */
  function Children(list: seq<Record>, key: Option<string>): seq<Record> {
    if list == [] then []
    else Children(list[..|list| - 1], key) + if list[|list| - 1].parent == key then [list[|list| - 1]] else []
  }

  function Lookup(index: map<Option<string>, seq<Record>>, key: Option<string>): seq<Record> {
    if key in index then index[key] else []
  }

  method GroupByParent(list: seq<Record>) returns (index: map<Option<string>, seq<Record>>)
    ensures forall key :: Lookup(index, key) == Children(list, key)
  {
    index := map[];
    for i := 0 to |list|
      invariant forall key :: Lookup(index, key) == Children(list[..i], key)
    {
      var key := list[i].parent;
      assert list[..i + 1][..i] == list[..i];
      index := index[key := Lookup(index, key) + [list[i]]];
    }
    assert list[..|list|] == list;
  }

  lemma {:induction false} ChildrenExactly(list: seq<Record>, key: Option<string>)
    requires UniqueIds(list)
    ensures forall r :: r in Children(list, key) <==> r in list && r.parent == key
    ensures UniqueIds(Children(list, key))
    decreases |list|
  {
    if list != [] {
      var n := |list| - 1;
      var init, last := list[..n], list[n];
      assert UniqueIds(init);
      ChildrenExactly(init, key);
      assert list == init + [last];
      var c := Children(init, key);
      assert last !in init;
      forall i | 0 <= i < |c| ensures c[i].id != last.id {
        assert c[i] in init;
        var k :| 0 <= k < n && init[k] == c[i];
        assert list[k].id == c[i].id;
      }
    }
  }

  // ---- The recursive builder ----

  /** All of `rs` are records of the list that hang `n` steps below a root. */
  ghost predicate Level(list: seq<Record>, rs: seq<Record>, n: nat)
    requires UniqueIds(list)
  {
    forall r | r in rs :: r in list && Rooted(GraphOf(list), r.id, n)
  }

  lemma ParentOf(list: seq<Record>, r: Record)
    requires UniqueIds(list) && r in list
    ensures r.id in GraphOf(list) && GraphOf(list)[r.id] == r.parent
  {
  }

  lemma RootLevel(list: seq<Record>)
    requires UniqueIds(list)
    ensures Level(list, Children(list, None), 0)
  {
    ChildrenExactly(list, None);
    var g := GraphOf(list);
    forall r | r in Children(list, None) ensures Rooted(g, r.id, 0) {
      ParentOf(list, r);
      OneUp(g, r.id);
    }
  }

  lemma NextLevel(list: seq<Record>, r: Record, n: nat)
    requires UniqueIds(list) && r in list && Rooted(GraphOf(list), r.id, n)
    ensures Level(list, Children(list, Some(r.id)), n + 1)
  {
    ChildrenExactly(list, Some(r.id));
    var g := GraphOf(list);
    forall c | c in Children(list, Some(r.id)) ensures Rooted(g, c.id, n + 1) {
      ParentOf(list, c);
      assert Anc(g, c.id, n + 1) == Anc(g, r.id, n);
      assert Anc(g, c.id, n + 2) == Anc(g, r.id, n + 1);
    }
  }

  /** `buildNode`: the recursion ends because it only ever descends from a root, and no record is
      deeper than the list is long. */
  function BuildNode(list: seq<Record>, r: Record, ghost n: nat): (node: Node)
    requires UniqueIds(list) && r in list && Rooted(GraphOf(list), r.id, n)
    ensures node.record == r
    decreases |GraphOf(list)| - n, 1, 0
  {
    DepthBound(GraphOf(list), r.id, n);
    NextLevel(list, r, n);
    Node(r, BuildAll(list, Children(list, Some(r.id)), n + 1))
  }

  function BuildAll(list: seq<Record>, rs: seq<Record>, ghost n: nat): (nodes: seq<Node>)
    requires UniqueIds(list) && Level(list, rs, n)
    ensures |nodes| == |rs|
    decreases |GraphOf(list)| - n, 2, |rs|
  {
    if rs == [] then [] else [BuildNode(list, rs[0], n)] + BuildAll(list, rs[1..], n)
  }

  function BuildTree(list: seq<Record>): seq<Node>
    requires UniqueIds(list)
  {
    RootLevel(list);
    BuildAll(list, Children(list, None), 0)
  }

  // ---- What is placed where ----

  /** A record, and the id of the node it is placed under. */
  datatype Placement = Placement(under: Option<string>, record: Record)

  /** The tree flattened, depth first. */
  function Placed(nodes: seq<Node>, under: Option<string>): seq<Placement>
    decreases nodes
  {
    if nodes == [] then []
    else [Placement(under, nodes[0].record)] + Placed(nodes[0].children, Some(nodes[0].record.id)) + Placed(nodes[1..], under)
  }

  predicate NoDuplicates<T(==)>(s: seq<T>) {
    forall i, j | 0 <= i < |s| && 0 <= j < |s| && s[i] == s[j] :: i == j
  }

  /** `x` is one of `rs` or lies below one of them. */
  ghost predicate Under(list: seq<Record>, rs: seq<Record>, x: Record)
    requires UniqueIds(list)
  {
    x in list && exists r | r in rs :: Reaches(GraphOf(list), x.id, r.id)
  }

  /** Exactly the records at or below `rs` are placed, each once and under its own parent. */
  ghost predicate PlacesExactly(list: seq<Record>, rs: seq<Record>, f: seq<Placement>)
    requires UniqueIds(list)
  {
    && NoDuplicates(f)
    && forall p :: p in f <==> p.under == p.record.parent && Under(list, rs, p.record)
  }

  lemma SameRecord(list: seq<Record>, x: Record, y: Record)
    requires UniqueIds(list) && x in list && y in list && x.id == y.id
    ensures x == y
  {
  }

  /** Below a record means being it, or below one of its children. */
  lemma BelowExactly(list: seq<Record>, r: Record, x: Record)
    requires UniqueIds(list) && r in list && x in list
    ensures Reaches(GraphOf(list), x.id, r.id) <==> x == r || Under(list, Children(list, Some(r.id)), x)
  {
    var g := GraphOf(list);
    var cs := Children(list, Some(r.id));
    ChildrenExactly(list, Some(r.id));
    if Reaches(g, x.id, r.id) {
      var k: nat :| Anc(g, x.id, k) == Some(r.id);
      if k == 0 {
        SameRecord(list, x, r);
      } else {
        AncAdd(g, x.id, k - 1, 1);
        var c := Anc(g, x.id, k - 1).value;
        OneUp(g, c);
        var child := Record(c, Some(r.id));
        assert child in list;
        assert child in cs && Reaches(g, x.id, child.id);
      }
    }
    if x == r {
      assert Anc(g, x.id, 0) == Some(r.id);
    }
    if Under(list, cs, x) {
      var c :| c in cs && Reaches(g, x.id, c.id);
      var k: nat :| Anc(g, x.id, k) == Some(c.id);
      ParentOf(list, c);
      AncAdd(g, x.id, k, 1);
      OneUp(g, c.id);
      assert Anc(g, x.id, k + 1) == Some(r.id);
    }
  }

  /** Two ancestors of one node at the same depth are one. */
  lemma SameDepth(g: Graph, x: string, a: string, b: string, m: nat, n: nat)
    requires Reaches(g, x, a) && Reaches(g, x, b) && AtDepth(g, a, m) && AtDepth(g, b, n)
    ensures m == n ==> a == b
    ensures x == b ==> m <= n
  {
    var i: nat :| Anc(g, x, i) == Some(a);
    var j: nat :| Anc(g, x, j) == Some(b);
    DepthBelow(g, x, a, i, m);
    DepthBelow(g, x, b, j, n);
    DepthUnique(g, x, i + m, j + n);
    if x == b {
      DepthUnique(g, x, i + m, n);
    }
  }

  lemma DepthBelow(g: Graph, x: string, a: string, i: nat, m: nat)
    requires Anc(g, x, i) == Some(a) && AtDepth(g, a, m)
    ensures AtDepth(g, x, i + m)
  {
    AncAdd(g, x, i, m);
    AncAdd(g, x, i, m + 1);
  }

  lemma ConcatNoDuplicates<T>(a: seq<T>, b: seq<T>)
    requires NoDuplicates(a) && NoDuplicates(b) && forall x | x in a :: x !in b
    ensures NoDuplicates(a + b)
  {
    assert forall i | 0 <= i < |a| :: a[i] in a;
    assert forall i | 0 <= i < |b| :: (a + b)[|a| + i] == b[i] && b[i] in b;
  }

  /** A record, what lies below its children, and what lies below its later siblings do not overlap. */
  lemma Disjoint(list: seq<Record>, rs: seq<Record>, n: nat, x: Record)
    requires UniqueIds(list) && UniqueIds(rs) && rs != [] && Level(list, rs, n) && x in list
    ensures var cs := Children(list, Some(rs[0].id));
            && (x == rs[0] ==> !Under(list, cs, x) && !Under(list, rs[1..], x))
            && !(Under(list, cs, x) && Under(list, rs[1..], x))
  {
    var g := GraphOf(list);
    var r, cs := rs[0], Children(list, Some(rs[0].id));
    NextLevel(list, r, n);
    BelowExactly(list, r, x);
    if Under(list, rs[1..], x) {
      var t :| t in rs[1..] && Reaches(g, x.id, t.id);
      assert t in rs && t.id != r.id;
      if Reaches(g, x.id, r.id) {
        SameDepth(g, x.id, r.id, t.id, n, n);
      }
    }
    if Under(list, cs, x) {
      var c :| c in cs && Reaches(g, x.id, c.id);
      if Reaches(g, x.id, r.id) {
        SameDepth(g, x.id, c.id, r.id, n + 1, n);
      }
    }
  }

  lemma UnderSplit(list: seq<Record>, rs: seq<Record>, x: Record)
    requires UniqueIds(list) && rs != [] && rs[0] in list
    ensures Under(list, rs, x) <==> x == rs[0] || Under(list, Children(list, Some(rs[0].id)), x) || Under(list, rs[1..], x)
  {
    var g := GraphOf(list);
    assert rs == [rs[0]] + rs[1..];
    if x in list {
      BelowExactly(list, rs[0], x);
      if Under(list, rs, x) {
        var r :| r in rs && Reaches(g, x.id, r.id);
        assert r == rs[0] || r in rs[1..];
      }
      if Under(list, rs[1..], x) {
        var r :| r in rs[1..] && Reaches(g, x.id, r.id);
        assert r in rs;
      }
      if Reaches(g, x.id, rs[0].id) {
        assert rs[0] in rs;
      }
    }
  }

  /** Joins what is known of the children and the later siblings. */
  lemma PlacesJoin(list: seq<Record>, rs: seq<Record>, n: nat, under: Option<string>, fc: seq<Placement>, ft: seq<Placement>)
    requires UniqueIds(list) && UniqueIds(rs) && rs != [] && Level(list, rs, n) && rs[0].parent == under
    requires PlacesExactly(list, Children(list, Some(rs[0].id)), fc) && PlacesExactly(list, rs[1..], ft)
    ensures PlacesExactly(list, rs, [Placement(under, rs[0])] + fc + ft)
  {
    var h := Placement(under, rs[0]);
    forall p ensures p in [h] + fc + ft <==> p.under == p.record.parent && Under(list, rs, p.record) {
      UnderSplit(list, rs, p.record);
    }
    forall x | x in list ensures (x == rs[0] ==> !Under(list, Children(list, Some(rs[0].id)), x) && !Under(list, rs[1..], x))
                              && !(Under(list, Children(list, Some(rs[0].id)), x) && Under(list, rs[1..], x)) {
      Disjoint(list, rs, n, x);
    }
    ConcatNoDuplicates([h], fc);
    ConcatNoDuplicates([h] + fc, ft);
  }

  /** What the builder places, by induction on how much deeper the list can still go. */
  lemma {:induction false} BuildAllPlaces(list: seq<Record>, rs: seq<Record>, n: nat, under: Option<string>)
    requires UniqueIds(list) && UniqueIds(rs) && Level(list, rs, n) && forall r | r in rs :: r.parent == under
    ensures PlacesExactly(list, rs, Placed(BuildAll(list, rs, n), under))
    decreases |GraphOf(list)| - n, |rs|
  {
    hide PlacesExactly, Children, Rooted, Placed, BuildAll;
    if rs == [] {
      NothingBuilt(list, n, under);
    } else {
      var r := rs[0];
      var cs := Children(list, Some(r.id));
      DepthBound(GraphOf(list), r.id, n);
      NextLevel(list, r, n);
      ChildrenExactly(list, Some(r.id));
      BuildAllPlaces(list, cs, n + 1, Some(r.id));
      TailUnique(rs);
      BuildAllPlaces(list, rs[1..], n, under);
      PlacedUnfolds(list, rs, n, under);
      PlacesJoin(list, rs, n, under, Placed(BuildAll(list, cs, n + 1), Some(r.id)), Placed(BuildAll(list, rs[1..], n), under));
    }
  }

  lemma PlacedUnfolds(list: seq<Record>, rs: seq<Record>, n: nat, under: Option<string>)
    requires UniqueIds(list) && Level(list, rs, n) && rs != []
    requires Level(list, Children(list, Some(rs[0].id)), n + 1) && Level(list, rs[1..], n)
    ensures Placed(BuildAll(list, rs, n), under)
         == [Placement(under, rs[0])] + Placed(BuildAll(list, Children(list, Some(rs[0].id)), n + 1), Some(rs[0].id))
            + Placed(BuildAll(list, rs[1..], n), under)
  {
  }

  lemma NothingBuilt(list: seq<Record>, n: nat, under: Option<string>)
    requires UniqueIds(list) && Level(list, [], n)
    ensures PlacesExactly(list, [], Placed(BuildAll(list, [], n), under))
  {
  }

  lemma TailUnique(rs: seq<Record>)
    requires UniqueIds(rs) && rs != []
    ensures UniqueIds(rs[1..]) && forall r | r in rs[1..] :: r in rs
  {
  }

  // ---- Main results ----

  lemma UnderRootsExactly(list: seq<Record>, x: Record)
    requires UniqueIds(list) && x in list
    ensures Under(list, Children(list, None), x) <==> HasRoot(GraphOf(list), x.id)
  {
    hide Rooted, Anc;
    if Under(list, Children(list, None), x) {
      UnderHasRoot(list, x);
    }
    if HasRoot(GraphOf(list), x.id) {
      RootIsListed(list, x);
    }
  }

  lemma UnderHasRoot(list: seq<Record>, x: Record)
    requires UniqueIds(list) && Under(list, Children(list, None), x)
    ensures HasRoot(GraphOf(list), x.id)
  {
    var g := GraphOf(list);
    RootLevel(list);
    var r :| r in Children(list, None) && Reaches(g, x.id, r.id);
    assert Rooted(g, r.id, 0);
    var i: nat :| Anc(g, x.id, i) == Some(r.id);
    DepthBelow(g, x.id, r.id, i, 0);
    ParentOf(list, r);
    assert Rooted(g, x.id, i);
  }

  lemma RootIsListed(list: seq<Record>, x: Record)
    requires UniqueIds(list) && x in list && HasRoot(GraphOf(list), x.id)
    ensures Under(list, Children(list, None), x)
  {
    var g := GraphOf(list);
    var n: nat :| Rooted(g, x.id, n);
    var top := Anc(g, x.id, n).value;
    AncAdd(g, x.id, n, 1);
    OneUp(g, top);
    ChildrenExactly(list, None);
    var r := Record(top, None);
    assert r in list;
    assert r in Children(list, None) && Reaches(g, x.id, r.id);
  }

  /** For every list of records with distinct ids the builder terminates and places exactly the records
      whose chain of parents reaches a root, each exactly once, each under its own parent. */
  lemma TreePlaces(list: seq<Record>)
    requires UniqueIds(list)
    ensures var f := Placed(BuildTree(list), None);
            && NoDuplicates(f)
            && forall p :: p in f <==> p.record in list && p.under == p.record.parent && HasRoot(GraphOf(list), p.record.id)
  {
    RootLevel(list);
    ChildrenExactly(list, None);
    BuildAllPlaces(list, Children(list, None), 0, None);
    forall x | x in list ensures Under(list, Children(list, None), x) <==> HasRoot(GraphOf(list), x.id) {
      UnderRootsExactly(list, x);
    }
  }

  function Records(f: seq<Placement>): seq<Record> {
    seq(|f|, i requires 0 <= i < |f| => f[i].record)
  }

  /** The tree holds the whole list, each record once, exactly when the parent graph has no cycle and
      every parent is in the list. */
  lemma TreeConserves(list: seq<Record>)
    requires UniqueIds(list)
    ensures multiset(Records(Placed(BuildTree(list), None))) == multiset(list) <==> Acyclic(GraphOf(list)) && Closed(GraphOf(list))
  {
    var f := Placed(BuildTree(list), None);
    var g := GraphOf(list);
    TreePlaces(list);
    RootsExactly(g);
    RecordsDistinct(f);
    ListDistinct(list);
    if AllRooted(g) {
      forall r ensures r in Records(f) <==> r in list {
        RecordsMember(f, r);
        if r in list {
          ParentOf(list, r);
          assert Placement(r.parent, r) in f;
        }
      }
      SameElements(Records(f), list);
    }
    if multiset(Records(f)) == multiset(list) {
      forall id | id in g ensures HasRoot(g, id) {
        var r :| r in list && r.id == id;
        assert r in multiset(Records(f));
        RecordsMember(f, r);
      }
    }
  }

  lemma RecordsMember(f: seq<Placement>, r: Record)
    ensures r in Records(f) <==> exists p | p in f :: p.record == r
  {
    if r in Records(f) {
      var i :| 0 <= i < |f| && Records(f)[i] == r;
      assert f[i] in f;
    }
    if exists p | p in f :: p.record == r {
      var p :| p in f && p.record == r;
      var i :| 0 <= i < |f| && f[i] == p;
      assert Records(f)[i] == r;
    }
  }

  lemma RecordsDistinct(f: seq<Placement>)
    requires NoDuplicates(f) && forall p | p in f :: p.under == p.record.parent
    ensures NoDuplicates(Records(f))
  {
  }

  lemma ListDistinct(list: seq<Record>)
    requires UniqueIds(list)
    ensures NoDuplicates(list)
  {
  }

  lemma {:induction false} CountsOnce<T>(s: seq<T>, x: T)
    requires NoDuplicates(s)
    ensures multiset(s)[x] == if x in s then 1 else 0
    decreases |s|
  {
    if s != [] {
      var n := |s| - 1;
      assert s == s[..n] + [s[n]];
      assert s[n] !in s[..n];
      CountsOnce(s[..n], x);
    }
  }

  lemma SameElements<T>(s: seq<T>, t: seq<T>)
    requires NoDuplicates(s) && NoDuplicates(t) && forall x :: x in s <==> x in t
    ensures multiset(s) == multiset(t)
  {
    forall x ensures multiset(s)[x] == multiset(t)[x] {
      CountsOnce(s, x);
      CountsOnce(t, x);
    }
  }

  /** A record that is its own parent is in no tree, whatever the rest of the list. */
  lemma SelfParentOmitted(list: seq<Record>, r: Record)
    requires UniqueIds(list) && r in list && r.parent == Some(r.id)
    ensures Placement(r.parent, r) !in Placed(BuildTree(list), None)
  {
    hide Placed, BuildTree;
    TreePlaces(list);
    var g := GraphOf(list);
    ParentOf(list, r);
    OneUp(g, r.id);
    LoopHasNoRoot(g, r.id);
  }

  /** The smallest list from which the tree builder omits a record. */
  lemma LoneLoopVanishes()
    ensures BuildTree([Record("a", Some("a"))]) == []
  {
    var list := [Record("a", Some("a"))];
    assert list[..0] == [];
    assert Children(list, None) == Children([], None) + [];
  }

  // ---- The chart of a maintained hierarchy ----

  /** `list` holds the departments of one workforce, in any order. */
  ghost predicate Lists(list: seq<Record>, rows: Departments.Rows, org: string, workforce: string) {
    && UniqueIds(list)
    && forall r :: r in list <==> Departments.SameWorkforce(rows, org, workforce, r.id) && rows[r.id].parent == r.parent
  }

  /** After any history of creations and updates, the department tree of every workforce shows each of
      its departments exactly once. */
  lemma ChartIsComplete(events: seq<Departments.Event>, list: seq<Record>, org: string, workforce: string)
    requires Lists(list, Departments.Run(map[], events), org, workforce)
    ensures multiset(Records(Placed(BuildTree(list), None))) == multiset(list)
  {
    var rows := Departments.Run(map[], events);
    Departments.RunKeeps(map[], events);
    var g, all := GraphOf(list), Departments.Pointers(rows);
    forall id | id in g ensures id in all && all[id] == g[id] && (g[id].Some? ==> g[id].value in g) {
      var r :| r in list && r.id == id;
      ParentOf(list, r);
      if r.parent.Some? {
        var p := Record(r.parent.value, rows[r.parent.value].parent);
        assert p in list;
      }
    }
    assert PartOf(g, all);
    forall id | id in g ensures Grounded(g, id) {
      PartReaches(g, all, id, id);
    }
    AcyclicExactly(g);
    TreeConserves(list);
  }

  // ---- Siblings keep the order of the list ----

  ghost predicate Before(list: seq<Record>, x: Record, y: Record) {
    exists p, q :: 0 <= p < q < |list| && list[p] == x && list[q] == y
  }

  ghost predicate InOrder(list: seq<Record>, rs: seq<Record>) {
    forall i, j | 0 <= i < j < |rs| :: Before(list, rs[i], rs[j])
  }

  /** At every depth siblings stand in the order of the list. */
  ghost predicate OrderedTree(list: seq<Record>, nodes: seq<Node>)
    decreases nodes
  {
    && (forall i, j | 0 <= i < j < |nodes| :: Before(list, nodes[i].record, nodes[j].record))
    && forall k | 0 <= k < |nodes| :: OrderedTree(list, nodes[k].children)
  }

  lemma BeforeLonger(init: seq<Record>, last: Record, x: Record, y: Record)
    requires Before(init, x, y)
    ensures Before(init + [last], x, y)
  {
    var p, q :| 0 <= p < q < |init| && init[p] == x && init[q] == y;
    assert (init + [last])[p] == x && (init + [last])[q] == y;
  }

  lemma {:induction false} ChildrenInOrder(list: seq<Record>, key: Option<string>)
    ensures InOrder(list, Children(list, key)) && forall r | r in Children(list, key) :: r in list
    decreases |list|
  {
    if list != [] {
      var n := |list| - 1;
      var init, last := list[..n], list[n];
      ChildrenInOrder(init, key);
      assert list == init + [last];
      var c, all := Children(init, key), Children(list, key);
      hide Before;
      forall i, j | 0 <= i < j < |all| ensures Before(list, all[i], all[j]) {
        if j < |c| {
          BeforeLonger(init, last, c[i], c[j]);
        } else {
          LastComesLast(init, last, c[i]);
        }
      }
    }
  }

  lemma LastComesLast(init: seq<Record>, last: Record, x: Record)
    requires x in init
    ensures Before(init + [last], x, last)
  {
    var p :| 0 <= p < |init| && init[p] == x;
    assert (init + [last])[p] == x && (init + [last])[|init|] == last;
  }

  lemma {:induction false} BuiltRecords(list: seq<Record>, rs: seq<Record>, n: nat)
    requires UniqueIds(list) && Level(list, rs, n)
    ensures forall k | 0 <= k < |rs| :: BuildAll(list, rs, n)[k].record == rs[k]
    decreases |rs|
  {
    hide BuildNode;
    if rs != [] {
      BuiltRecords(list, rs[1..], n);
    }
  }

  lemma {:induction false} NodeOrdered(list: seq<Record>, r: Record, n: nat)
    requires UniqueIds(list) && r in list && Rooted(GraphOf(list), r.id, n)
    ensures OrderedTree(list, BuildNode(list, r, n).children)
    decreases |GraphOf(list)| - n, 1, 0
  {
    DepthBound(GraphOf(list), r.id, n);
    NextLevel(list, r, n);
    ChildrenInOrder(list, Some(r.id));
    AllOrdered(list, Children(list, Some(r.id)), n + 1);
  }

  lemma {:induction false} AllOrdered(list: seq<Record>, rs: seq<Record>, n: nat)
    requires UniqueIds(list) && Level(list, rs, n) && InOrder(list, rs)
    ensures OrderedTree(list, BuildAll(list, rs, n))
    decreases |GraphOf(list)| - n, 2, |rs|
  {
    hide Before, InOrder, Rooted, OrderedTree;
    if rs == [] {
      NothingOrdered(list);
    } else {
      var rest := rs[1..];
      InOrderTail(list, rs);
      NodeOrdered(list, rs[0], n);
      AllOrdered(list, rest, n);
      BuiltRecords(list, rest, n);
      OrderedJoin(list, BuildNode(list, rs[0], n), BuildAll(list, rest, n));
    }
  }

  lemma NothingOrdered(list: seq<Record>)
    ensures OrderedTree(list, [])
  {
  }

  lemma InOrderTail(list: seq<Record>, rs: seq<Record>)
    requires InOrder(list, rs) && rs != []
    ensures InOrder(list, rs[1..]) && forall k | 0 <= k < |rs| - 1 :: Before(list, rs[0], rs[1..][k])
  {
    hide Before;
    var rest := rs[1..];
    assert forall k | 0 <= k < |rest| :: rest[k] == rs[k + 1];
  }

  lemma OrderedJoin(list: seq<Record>, node: Node, rest: seq<Node>)
    requires OrderedTree(list, node.children) && OrderedTree(list, rest)
    requires forall k | 0 <= k < |rest| :: Before(list, node.record, rest[k].record)
    ensures OrderedTree(list, [node] + rest)
  {
    hide Before;
    var all := [node] + rest;
    assert forall k | 1 <= k < |all| :: all[k] == rest[k - 1];
  }

  /** The tree shows siblings, the roots among them, in the order of the list. */
  lemma TreeKeepsOrder(list: seq<Record>)
    requires UniqueIds(list)
    ensures OrderedTree(list, BuildTree(list))
  {
    RootLevel(list);
    ChildrenInOrder(list, None);
    AllOrdered(list, Children(list, None), 0);
  }
}
