/** Parent-pointer graphs: ancestor walks, cycles, and what re-parenting does to them. */
module Hierarchy {
  import opened Strings
  import opened Sets

  /** Every node with its parent; a parent need not be a node. */
  type Graph = map<string, Option<string>>

  function Up(g: Graph, id: string): Option<string> {
    if id in g then g[id] else None
  }

  /** The `k`-th ancestor, if the walk is that long. */
  function Anc(g: Graph, id: string, k: nat): Option<string>
    decreases k
  {
    if k == 0 then Some(id)
    else if Up(g, id).None? then None
    else Anc(g, Up(g, id).value, k - 1)
  }

  ghost predicate Acyclic(g: Graph) {
    forall id, k: nat | id in g && k > 0 :: Anc(g, id, k) != Some(id)
  }

  /** The ancestor walk from `id` comes to an end. */
  ghost predicate Grounded(g: Graph, id: string) {
    exists k: nat :: Anc(g, id, k).None?
  }

  ghost predicate AllGrounded(g: Graph) {
    forall id | id in g :: Grounded(g, id)
  }

  ghost predicate Reaches(g: Graph, id: string, target: string) {
    exists k: nat :: Anc(g, id, k) == Some(target)
  }

  ghost predicate Closed(g: Graph) {
    forall id | id in g && g[id].Some? :: g[id].value in g
  }

  // ---- Walks ----

  lemma {:induction false} AncAdd(g: Graph, id: string, j: nat, k: nat)
    ensures Anc(g, id, j + k) == if Anc(g, id, j).None? then None else Anc(g, Anc(g, id, j).value, k)
    decreases j
  {
    if j > 0 && Up(g, id).Some? {
      AncAdd(g, Up(g, id).value, j - 1, k);
    }
  }

  /** A walk that comes back to where it was never ends. */
  lemma {:induction false} LoopNeverEnds(g: Graph, id: string, period: nat, k: nat)
    requires period > 0 && Anc(g, id, period) == Some(id)
    ensures Anc(g, id, k).Some?
    decreases k
  {
    if k < period {
      AncAdd(g, id, k, period - k);
    } else {
      AncAdd(g, id, period, k - period);
      LoopNeverEnds(g, id, period, k - period);
    }
  }

  /** ... and only ever visits what it visited the first time round. */
  lemma {:induction false} LoopRepeats(g: Graph, id: string, period: nat, k: nat) returns (i: nat)
    requires period > 0 && Anc(g, id, period) == Some(id)
    ensures i < period && Anc(g, id, k) == Anc(g, id, i)
    decreases k
  {
    if k < period {
      i := k;
    } else {
      AncAdd(g, id, period, k - period);
      i := LoopRepeats(g, id, period, k - period);
    }
  }

  lemma GroundedUp(g: Graph, id: string, k: nat)
    requires Anc(g, id, k).Some?
    ensures Grounded(g, id) <==> Grounded(g, Anc(g, id, k).value)
  {
    var p := Anc(g, id, k).value;
    if Grounded(g, p) {
      var n: nat :| Anc(g, p, n).None?;
      AncAdd(g, id, k, n);
      assert Anc(g, id, k + n).None?;
    }
    if Grounded(g, id) {
      var n: nat :| Anc(g, id, n).None?;
      if n < k {
        AncAdd(g, id, n, k - n);
      } else {
        AncAdd(g, id, k, n - k);
        assert Anc(g, p, n - k).None?;
      }
    }
  }

  lemma GroundedHasNoLoop(g: Graph, id: string, k: nat)
    requires Grounded(g, id) && k > 0
    ensures Anc(g, id, k) != Some(id)
  {
    var n: nat :| Anc(g, id, n).None?;
    if Anc(g, id, k) == Some(id) {
      LoopNeverEnds(g, id, k, n);
    }
  }

  // ---- Depth ----

  /** The walk from `id` makes exactly `n` steps before it stands on a node without parent. */
  predicate AtDepth(g: Graph, id: string, n: nat) {
    Anc(g, id, n).Some? && Anc(g, id, n + 1).None?
  }

  lemma {:induction false} DepthUnique(g: Graph, id: string, m: nat, n: nat)
    requires AtDepth(g, id, m) && AtDepth(g, id, n)
    ensures m == n
  {
    if m < n {
      AncAdd(g, id, m + 1, n - (m + 1));
    } else if n < m {
      AncAdd(g, id, n + 1, m - (n + 1));
    }
  }

  lemma {:induction false} GroundedHasDepth(g: Graph, id: string, k: nat) returns (n: nat)
    requires Anc(g, id, k).None?
    ensures AtDepth(g, id, n) && n < k
    decreases k
  {
    if Anc(g, id, k - 1).Some? {
      n := k - 1;
    } else {
      n := GroundedHasDepth(g, id, k - 1);
    }
  }

  /** The first `n + 1` ancestors, the node itself included. */
  function Line(g: Graph, id: string, n: nat): set<string>
    requires Anc(g, id, n).Some?
    decreases n
  {
    {id} + if n == 0 then {} else Line(g, Up(g, id).value, n - 1)
  }

  lemma {:induction false} LineSize(g: Graph, id: string, n: nat)
    requires AtDepth(g, id, n)
    ensures |Line(g, id, n)| == n + 1
    ensures forall x | x in Line(g, id, n) :: Shallow(g, x, n)
    decreases n
  {
    if n > 0 {
      var p := Up(g, id).value;
      assert AtDepth(g, p, n - 1);
      LineSize(g, p, n - 1);
      NotAbove(g, id, n, Line(g, p, n - 1));
    }
    assert Shallow(g, id, n);
  }

  ghost predicate Shallow(g: Graph, x: string, n: int) {
    exists m: nat :: m <= n && AtDepth(g, x, m)
  }

  lemma NotAbove(g: Graph, id: string, n: nat, line: set<string>)
    requires AtDepth(g, id, n) && forall x | x in line :: Shallow(g, x, n - 1)
    ensures id !in line && forall x | x in line :: Shallow(g, x, n)
  {
    if id in line {
      var m: nat :| m <= n - 1 && AtDepth(g, id, m);
      DepthUnique(g, id, m, n);
    }
  }

  lemma {:induction false} LineInGraph(g: Graph, id: string, n: nat)
    requires Anc(g, id, n).Some? && Anc(g, id, n).value in g
    ensures Line(g, id, n) <= g.Keys
    decreases n
  {
    if n > 0 {
      LineInGraph(g, Up(g, id).value, n - 1);
    }
  }

  /** The walk from `id` ends, after `n` steps, on a node of the graph. */
  predicate Rooted(g: Graph, id: string, n: nat) {
    AtDepth(g, id, n) && Anc(g, id, n).value in g
  }

  ghost predicate HasRoot(g: Graph, id: string) {
    exists n: nat :: Rooted(g, id, n)
  }

  lemma LoopHasNoRoot(g: Graph, id: string)
    requires Anc(g, id, 1) == Some(id)
    ensures !HasRoot(g, id)
  {
    forall n: nat ensures !Rooted(g, id, n) {
      LoopNeverEnds(g, id, 1, n + 1);
    }
  }

  /** No walk to a root is longer than the graph has nodes. */
  lemma DepthBound(g: Graph, id: string, n: nat)
    requires Rooted(g, id, n)
    ensures n < |g|
  {
    LineSize(g, id, n);
    LineInGraph(g, id, n);
    SubsetSize(Line(g, id, n), g.Keys);
  }

  // ---- Cycles and ends ----

  ghost predicate Visited(g: Graph, id: string, k: nat, x: string) {
    exists i: nat :: i < k && Anc(g, id, i) == Some(x)
  }

  /** In a finite graph a walk ends, or comes back to a node and there is a cycle. */
  lemma {:induction false} EndsOrCycles(g: Graph, id: string, k: nat, seen: set<string>)
    requires Anc(g, id, k).Some? && forall x | x in seen :: Visited(g, id, k, x)
    ensures Grounded(g, id) || !Acyclic(g)
    decreases |g.Keys - seen|
  {
    var cur := Anc(g, id, k).value;
    AncAdd(g, id, k, 1);
    assert Anc(g, id, k + 1) == Anc(g, cur, 1) == Up(g, cur) by { OneUp(g, cur); }
    if Up(g, cur).Some? {
      if cur in seen {
        var i: nat :| i < k && Anc(g, id, i) == Some(cur);
        ReturnIsCycle(g, id, i, k);
      } else {
        var more := seen + {cur};
        forall x | x in more ensures Visited(g, id, k + 1, x) {
          if x != cur {
            var i: nat :| i < k && Anc(g, id, i) == Some(x);
          }
        }
        Shrinks(g.Keys, seen, cur);
        EndsOrCycles(g, id, k + 1, more);
      }
    }
  }

  lemma OneUp(g: Graph, id: string)
    ensures Anc(g, id, 1) == Up(g, id)
  {
  }

  lemma Shrinks(all: set<string>, seen: set<string>, x: string)
    requires x in all && x !in seen
    ensures |all - (seen + {x})| < |all - seen|
  {
    assert all - seen == (all - (seen + {x})) + {x};
  }

  lemma ReturnIsCycle(g: Graph, id: string, i: nat, j: nat)
    requires i < j && Anc(g, id, i).Some? && Anc(g, id, i) == Anc(g, id, j)
    ensures !Acyclic(g)
  {
    var x := Anc(g, id, i).value;
    AncAdd(g, id, i, j - i);
    assert Anc(g, x, j - i) == Some(x);
    assert x in g;
  }

  /** A finite graph is acyclic exactly when every ancestor walk ends. */
  lemma AcyclicExactly(g: Graph)
    ensures Acyclic(g) <==> AllGrounded(g)
  {
    if AllGrounded(g) {
      forall id, k: nat | id in g && k > 0 ensures Anc(g, id, k) != Some(id) {
        GroundedHasNoLoop(g, id, k);
      }
    }
    if Acyclic(g) {
      forall id | id in g ensures Grounded(g, id) {
        EndsOrCycles(g, id, 0, {});
      }
    }
  }

  // ---- Re-parenting ----

  lemma VisitedUp(g: Graph, x: string, k: nat, id: string)
    requires k > 0 && Up(g, x).Some?
    ensures Visited(g, Up(g, x).value, k - 1, id) ==> Visited(g, x, k, id)
  {
    if Visited(g, Up(g, x).value, k - 1, id) {
      var i: nat :| i < k - 1 && Anc(g, Up(g, x).value, i) == Some(id);
      assert Anc(g, x, i + 1) == Some(id);
    }
  }

  /** Walks that do not pass `id` do not notice a change of its parent. */
  lemma {:induction false} WalkIgnores(g: Graph, id: string, p: Option<string>, x: string, k: nat)
    requires !Visited(g, x, k, id)
    ensures Anc(g[id := p], x, k) == Anc(g, x, k)
    decreases k
  {
    if k > 0 {
      assert Anc(g, x, 0) == Some(x);
      if Up(g, x).Some? {
        var y := Up(g, x).value;
        VisitedUp(g, x, k, id);
        WalkIgnores(g, id, p, y, k - 1);
      }
    }
  }

  lemma UnreachedWalk(g: Graph, id: string, p: Option<string>, x: string)
    requires !Reaches(g, x, id) && Grounded(g, x)
    ensures Grounded(g[id := p], x)
  {
    var n: nat :| Anc(g, x, n).None?;
    WalkIgnores(g, id, p, x, n);
    assert Anc(g[id := p], x, n).None?;
  }

  /** Hanging `id` under a parent from which it cannot be reached leaves every walk finite. */
  lemma ReparentGrounds(g: Graph, id: string, p: Option<string>)
    requires AllGrounded(g)
    requires p.Some? ==> Grounded(g, p.value) && !Reaches(g, p.value, id)
    ensures AllGrounded(g[id := p])
  {
    var z := g[id := p];
    assert Grounded(z, id) by {
      if p.Some? {
        UnreachedWalk(g, id, p, p.value);
        assert Anc(z, id, 1) == p by { assert Anc(z, p.value, 0) == p; }
        GroundedUp(z, id, 1);
      } else {
        assert Anc(z, id, 1).None?;
      }
    }
    forall x | x in z && x != id ensures Grounded(z, x) {
      if Reaches(g, x, id) {
        var k: nat :| Anc(g, x, k) == Some(id);
        var first := FirstVisit(g, x, id, k);
        WalkIgnores(g, id, p, x, first);
        GroundedUp(z, x, first);
      } else {
        UnreachedWalk(g, id, p, x);
      }
    }
  }

  lemma {:induction false} FirstVisit(g: Graph, x: string, id: string, k: nat) returns (first: nat)
    requires Anc(g, x, k) == Some(id)
    ensures first <= k && Anc(g, x, first) == Some(id) && !Visited(g, x, first, id)
    decreases k
  {
    if Visited(g, x, k, id) {
      var i: nat :| i < k && Anc(g, x, i) == Some(id);
      first := FirstVisit(g, x, id, i);
    } else {
      first := k;
    }
  }

  /** ... and if it can be reached, the change closes a cycle. */
  lemma ReparentCloses(g: Graph, id: string, p: string)
    requires Reaches(g, p, id)
    ensures !Acyclic(g[id := Some(p)])
  {
    var k: nat :| Anc(g, p, k) == Some(id);
    var first := FirstVisit(g, p, id, k);
    var z := g[id := Some(p)];
    WalkIgnores(g, id, Some(p), p, first);
    assert Anc(z, id, first + 1) == Anc(z, p, first);
    assert id in z && Anc(z, id, first + 1) == Some(id);
  }

  // ---- Closed graphs and their closed parts ----

  lemma {:induction false} ClosedWalk(g: Graph, id: string, k: nat)
    requires Closed(g) && id in g
    ensures Anc(g, id, k).Some? ==> Anc(g, id, k).value in g
    decreases k
  {
    if k > 0 && Up(g, id).Some? {
      ClosedWalk(g, Up(g, id).value, k - 1);
    }
  }

  /** `h` is a part of `g` that contains the parents of its nodes. */
  ghost predicate PartOf(h: Graph, g: Graph) {
    Closed(h) && forall x | x in h :: x in g && g[x] == h[x]
  }

  lemma {:induction false} PartWalk(h: Graph, g: Graph, id: string, k: nat)
    requires PartOf(h, g) && id in h
    ensures Anc(h, id, k) == Anc(g, id, k)
    decreases k
  {
    if k > 0 && Up(h, id).Some? {
      PartWalk(h, g, Up(h, id).value, k - 1);
    }
  }

  lemma PartReaches(h: Graph, g: Graph, id: string, target: string)
    requires PartOf(h, g) && id in h
    ensures Reaches(h, id, target) <==> Reaches(g, id, target)
    ensures Grounded(h, id) <==> Grounded(g, id)
  {
    if Reaches(h, id, target) {
      var k: nat :| Anc(h, id, k) == Some(target);
      PartWalk(h, g, id, k);
    }
    if Reaches(g, id, target) {
      var k: nat :| Anc(g, id, k) == Some(target);
      PartWalk(h, g, id, k);
    }
    if Grounded(h, id) {
      var k: nat :| Anc(h, id, k).None?;
      PartWalk(h, g, id, k);
    }
    if Grounded(g, id) {
      var k: nat :| Anc(g, id, k).None?;
      PartWalk(h, g, id, k);
    }
  }

  lemma RootFromClosed(g: Graph, id: string)
    requires Closed(g) && id in g && Grounded(g, id)
    ensures HasRoot(g, id)
  {
    var k: nat :| Anc(g, id, k).None?;
    var n := GroundedHasDepth(g, id, k);
    ClosedWalk(g, id, n);
    assert Rooted(g, id, n);
  }

  lemma RootMeans(g: Graph, id: string)
    requires id in g && HasRoot(g, id)
    ensures Grounded(g, id) && (g[id].Some? ==> g[id].value in g)
  {
    var n: nat :| Rooted(g, id, n);
    assert Anc(g, id, n + 1).None?;
    if g[id].Some? {
      OneUp(g, id);
      assert n > 0;
      LineInGraph(g, g[id].value, n - 1);
      assert g[id].value in Line(g, g[id].value, n - 1);
    }
  }

  ghost predicate AllRooted(g: Graph) {
    forall id | id in g :: HasRoot(g, id)
  }

  /** Every node hangs below a root exactly when there is no cycle and no parent is missing. */
  lemma RootsExactly(g: Graph)
    ensures AllRooted(g) <==> Acyclic(g) && Closed(g)
  {
    hide HasRoot, Grounded, Acyclic;
    AcyclicExactly(g);
    if AllGrounded(g) && Closed(g) {
      forall id | id in g ensures HasRoot(g, id) { RootFromClosed(g, id); }
    }
    if AllRooted(g) {
      forall id | id in g ensures Grounded(g, id) && (g[id].Some? ==> g[id].value in g) { RootMeans(g, id); }
    }
  }
}
