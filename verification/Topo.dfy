/**
 Precedence graphs over strings: linear extensions, the lexicographic order on
 them, cycles, and the theory of the greedy "take the smallest ready node" run.
 Edges form a list because the same edge may be recorded more than once.
 */
module Topo {
  import opened Text
  import opened Collections

  datatype Graph = Graph(nodes: set<string>, edges: seq<(string, string)>) {
    ghost predicate Valid() {
      forall e :: e in edges ==> e.0 in nodes && e.1 in nodes
    }
  }

  /** `order` lists every node once, each edge's source before its target. */
  ghost predicate IsExtension(g: Graph, order: seq<string>) {
    && Distinct(order)
    && SetOf(order) == g.nodes
    && forall i, j :: 0 <= i < |order| && 0 <= j < |order| && (order[i], order[j]) in g.edges ==> i < j
  }

  /** Lexicographic order on lists of strings of the same length. */
  ghost predicate LexLeq(a: seq<string>, b: seq<string>) {
    || a == b
    || exists p: nat :: FirstDifference(a, b, p) && StrLeq(a[p], b[p])
  }

  ghost predicate FirstDifference(a: seq<string>, b: seq<string>, p: nat) {
    p < |a| && p < |b| && a[..p] == b[..p] && a[p] != b[p]
  }

  ghost predicate IsLeastExtension(g: Graph, order: seq<string>) {
    && IsExtension(g, order)
    && forall other :: IsExtension(g, other) ==> LexLeq(order, other)
  }

  /** A non-empty closed walk; one node with an edge to itself is a cycle. */
  ghost predicate IsCycle(g: Graph, c: seq<string>) {
    && IsWalk(g, c)
    && (c[|c| - 1], c[0]) in g.edges
  }

  ghost predicate IsWalk(g: Graph, c: seq<string>) {
    |c| > 0 && forall i :: 0 < i < |c| ==> (c[i - 1], c[i]) in g.edges
  }

  ghost predicate Acyclic(g: Graph) {
    forall c :: !IsCycle(g, c)
  }

  // ---------------------------------------------------------------------
  // Counting edges that still block a node

  /** The number of edges into `n` whose source is not in `done`. */
  function Pending(edges: seq<(string, string)>, done: set<string>, n: string): nat {
    if edges == [] then 0
    else
      var e := edges[|edges| - 1];
      Pending(edges[..|edges| - 1], done, n) + if e.1 == n && e.0 !in done then 1 else 0
  }

  /** The targets of the edges leaving `a`, in the order the edges were added. */
  function Targets(edges: seq<(string, string)>, a: string): seq<string> {
    if edges == [] then []
    else
      var e := edges[|edges| - 1];
      Targets(edges[..|edges| - 1], a) + if e.0 == a then [e.1] else []
  }

  lemma {:induction false} PendingZero(edges: seq<(string, string)>, done: set<string>, n: string)
    ensures Pending(edges, done, n) == 0 <==> forall a :: (a, n) in edges ==> a in done
  {
    if edges != [] {
      var front, e := edges[..|edges| - 1], edges[|edges| - 1];
      PendingZero(front, done, n);
      assert edges == front + [e];
    }
  }

  /** Finishing `a` releases each of its targets once per edge. */
  lemma {:induction false} PendingAfter(edges: seq<(string, string)>, done: set<string>, a: string, n: string)
    requires a !in done
    ensures Pending(edges, done + {a}, n) + multiset(Targets(edges, a))[n] == Pending(edges, done, n)
  {
    if edges != [] {
      PendingAfter(edges[..|edges| - 1], done, a, n);
    }
  }

  lemma {:induction false} TargetsAreEdges(edges: seq<(string, string)>, a: string)
    ensures forall b :: b in Targets(edges, a) <==> (a, b) in edges
  {
    if edges != [] {
      var front, e := edges[..|edges| - 1], edges[|edges| - 1];
      TargetsAreEdges(front, a);
      assert edges == front + [e];
    }
  }

  // ---------------------------------------------------------------------
  // Greedy runs

  ghost predicate Ready(g: Graph, done: set<string>, n: string) {
    n in g.nodes && n !in done && Pending(g.edges, done, n) == 0
  }

  ghost predicate LeastReady(g: Graph, done: set<string>, n: string) {
    Ready(g, done, n) && forall m :: Ready(g, done, m) ==> StrLeq(n, m)
  }

  /** Every entry of `run` was the smallest ready node when it was taken. */
  ghost predicate GreedyRun(g: Graph, run: seq<string>) {
    forall i :: 0 <= i < |run| ==> LeastReady(g, SetOf(run[..i]), run[i])
  }

  /** No node is ready any more. */
  ghost predicate Stuck(g: Graph, run: seq<string>) {
    forall n :: !Ready(g, SetOf(run), n)
  }

  lemma GreedyDistinct(g: Graph, run: seq<string>)
    requires GreedyRun(g, run)
    ensures Distinct(run) && SetOf(run) <= g.nodes && |SetOf(run)| == |run|
  {
    forall i, j | 0 <= i < j < |run| ensures run[i] != run[j] {
      assert LeastReady(g, SetOf(run[..j]), run[j]);
      assert run[i] == run[..j][i];
    }
    forall n | n in SetOf(run) ensures n in g.nodes {
      var i :| 0 <= i < |run| && run[i] == n;
      assert LeastReady(g, SetOf(run[..i]), run[i]);
    }
    DistinctCardinality(run);
  }

  /** One greedy step more. */
  lemma GreedyExtend(g: Graph, run: seq<string>, n: string)
    requires GreedyRun(g, run) && LeastReady(g, SetOf(run), n)
    ensures GreedyRun(g, run + [n])
  {
    var next := run + [n];
    forall i | 0 <= i < |next| ensures LeastReady(g, SetOf(next[..i]), next[i]) {
      if i < |run| {
        assert next[..i] == run[..i];
        assert LeastReady(g, SetOf(run[..i]), run[i]);
      } else {
        assert next[..i] == run;
      }
    }
  }

  lemma SameSize<T>(a: set<T>, b: set<T>)
    requires a <= b && |a| == |b|
    ensures a == b
  {
    assert |b - a| == |b| - |a|;
    assert b == a + (b - a);
  }

  lemma GreedyIsExtension(g: Graph, run: seq<string>)
    requires GreedyRun(g, run) && |run| == |g.nodes|
    ensures IsExtension(g, run)
  {
    GreedyDistinct(g, run);
    SameSize(SetOf(run), g.nodes);
    forall i, j | 0 <= i < |run| && 0 <= j < |run| && (run[i], run[j]) in g.edges ensures i < j {
      assert LeastReady(g, SetOf(run[..j]), run[j]);
      PendingZero(g.edges, SetOf(run[..j]), run[j]);
      assert run[i] in run[..j];
      var k :| 0 <= k < j && run[..j][k] == run[i];
    }
  }

  /** A position where two lists of equal length first differ, or equality. */
  lemma {:induction false} FindDifference(a: seq<string>, b: seq<string>) returns (p: nat)
    requires |a| == |b|
    ensures a == b || FirstDifference(a, b, p)
  {
    p := 0;
    while p < |a| && a[p] == b[p]
      invariant p <= |a| && a[..p] == b[..p]
    {
      p := p + 1;
    }
    if p == |a| { assert a == a[..p] && b == b[..p]; }
  }

  /** The greedy run is no larger than any other linear extension. */
  lemma GreedyLeast(g: Graph, run: seq<string>, other: seq<string>)
    requires g.Valid() && GreedyRun(g, run) && |run| == |g.nodes|
    requires IsExtension(g, other)
    ensures LexLeq(run, other)
  {
    DistinctCardinality(other);
    var p := FindDifference(run, other);
    if run != other {
      var done := SetOf(run[..p]);
      assert LeastReady(g, done, run[p]);
      assert other[p] !in done by {
        assert run[..p] == other[..p];
      }
      forall a | (a, other[p]) in g.edges ensures a in done {
        assert a in other;
        var k :| 0 <= k < |other| && other[k] == a;
        assert k < p;
        assert other[..p][k] == a;
      }
      PendingZero(g.edges, done, other[p]);
      assert Ready(g, done, other[p]) by { assert other[p] in SetOf(other); }
    }
  }

  /** Along a walk, positions in a linear extension increase. */
  lemma {:induction false} WalkIncreases(g: Graph, c: seq<string>, order: seq<string>) returns (first: nat, last: nat)
    requires g.Valid() && IsExtension(g, order) && IsWalk(g, c)
    requires c[0] in g.nodes
    ensures first <= last < |order| && order[first] == c[0] && order[last] == c[|c| - 1]
    decreases |c|
  {
    if |c| == 1 {
      assert c[0] in SetOf(order);
      first :| 0 <= first < |order| && order[first] == c[0];
      last := first;
    } else {
      var front := c[..|c| - 1];
      var mid: nat;
      first, mid := WalkIncreases(g, front, order);
      assert (c[|c| - 2], c[|c| - 1]) in g.edges by { assert (c[(|c| - 1) - 1], c[|c| - 1]) in g.edges; }
      assert c[|c| - 1] in SetOf(order);
      last :| 0 <= last < |order| && order[last] == c[|c| - 1];
    }
  }

  /** A graph with a cycle has no linear extension. */
  lemma CycleExcludesExtension(g: Graph, c: seq<string>, order: seq<string>)
    requires g.Valid() && IsCycle(g, c)
    ensures !IsExtension(g, order)
  {
    if IsExtension(g, order) {
      var first, last := WalkIncreases(g, c, order);
    }
  }

  /** Some node of `blocked` must come before `n`. */
  ghost predicate Blocked(g: Graph, blocked: set<string>, n: string) {
    exists a :: a in blocked && (a, n) in g.edges
  }

  /** Walking backwards inside a finite set of blocked nodes must close a cycle. */
  lemma {:induction false} CycleFromWalk(g: Graph, blocked: set<string>, walk: seq<string>) returns (c: seq<string>)
    requires forall n :: n in blocked ==> Blocked(g, blocked, n)
    requires IsWalk(g, walk) && Distinct(walk) && SetOf(walk) <= blocked
    ensures IsCycle(g, c) && SetOf(c) <= blocked
    decreases |blocked| - |walk|
  {
    assert walk[0] in SetOf(walk);
    var a :| a in blocked && (a, walk[0]) in g.edges;
    if a in walk {
      var k :| 0 <= k < |walk| && walk[k] == a;
      c := walk[..k + 1];
    } else {
      var longer := ExtendWalk(g, blocked, walk, a);
      c := CycleFromWalk(g, blocked, longer);
    }
  }

  lemma ExtendWalk(g: Graph, blocked: set<string>, walk: seq<string>, a: string) returns (longer: seq<string>)
    requires IsWalk(g, walk) && Distinct(walk) && SetOf(walk) <= blocked
    requires a in blocked && (a, walk[0]) in g.edges && a !in walk
    ensures longer == [a] + walk && |longer| <= |blocked|
    ensures IsWalk(g, longer) && Distinct(longer) && SetOf(longer) <= blocked
  {
    longer := [a] + walk;
    forall x | x in SetOf(longer) ensures x in blocked { assert x == a || x in SetOf(walk); }
    DistinctCardinality(longer);
    SubsetSize(SetOf(longer), blocked);
  }

  lemma UnreadyIsBlocked(g: Graph, done: set<string>, n: string)
    requires g.Valid() && n in g.nodes - done && !Ready(g, done, n)
    ensures Blocked(g, g.nodes - done, n)
  {
    PendingZero(g.edges, done, n);
    var a :| (a, n) in g.edges && a !in done;
    assert a in g.nodes - done;
  }

  lemma SomethingMissed(g: Graph, run: seq<string>)
    requires GreedyRun(g, run) && |run| != |g.nodes|
    ensures exists n :: n in g.nodes - SetOf(run)
  {
    GreedyDistinct(g, run);
    hide GreedyRun;
    var missed := g.nodes - SetOf(run);
    assert g.nodes == SetOf(run) + missed;
    assert missed != {};
  }

  /** A stuck greedy run that missed a node exhibits a cycle among the missed nodes. */
  lemma StuckGivesCycle(g: Graph, run: seq<string>) returns (c: seq<string>)
    requires g.Valid() && GreedyRun(g, run) && Stuck(g, run) && |run| != |g.nodes|
    ensures IsCycle(g, c) && SetOf(c) <= g.nodes - SetOf(run)
  {
    SomethingMissed(g, run);
    var blocked := g.nodes - SetOf(run);
    forall n | n in blocked ensures Blocked(g, blocked, n) {
      assert !Ready(g, SetOf(run), n);
      UnreadyIsBlocked(g, SetOf(run), n);
    }
    var n :| n in blocked;
    var walk := [n];
    assert SetOf(walk) == {n};
    hide GreedyRun, Stuck, Ready, IsCycle, Blocked, SetOf;
    c := CycleFromWalk(g, blocked, walk);
  }

  /** The two outcomes of a finished greedy run, as facts about the graph alone. */
  lemma GreedyOutcome(g: Graph, run: seq<string>)
    requires g.Valid() && GreedyRun(g, run) && Stuck(g, run)
    ensures |run| == |g.nodes| <==> Acyclic(g)
    ensures |run| == |g.nodes| ==> IsLeastExtension(g, run)
  {
    if |run| == |g.nodes| {
      GreedyIsExtension(g, run);
      forall other | IsExtension(g, other) ensures LexLeq(run, other) { GreedyLeast(g, run, other); }
      forall c ensures !IsCycle(g, c) {
        if IsCycle(g, c) { CycleExcludesExtension(g, c, run); }
      }
    } else {
      var c := StuckGivesCycle(g, run);
    }
  }

  lemma SameBefore(a: seq<string>, b: seq<string>, p: nat)
    requires FirstDifference(a, b, p)
    ensures forall k :: 0 <= k < p ==> a[k] == b[k]
  {
    forall k | 0 <= k < p ensures a[k] == b[k] { assert a[..p][k] == b[..p][k]; }
  }

  /** There is at most one least linear extension. */
  lemma LeastExtensionUnique(g: Graph, a: seq<string>, b: seq<string>)
    requires IsLeastExtension(g, a) && IsLeastExtension(g, b)
    ensures a == b
  {
    assert LexLeq(a, b) && LexLeq(b, a);
    if a != b {
      var p: nat :| FirstDifference(a, b, p) && StrLeq(a[p], b[p]);
      var q: nat :| FirstDifference(b, a, q) && StrLeq(b[q], a[q]);
      SameBefore(a, b, p);
      SameBefore(b, a, q);
      StrLeqAntisymmetric(a[p], b[p]);
    }
  }

  /** Linear extensions exist exactly for acyclic graphs. */
  lemma ExtensionIffAcyclic(g: Graph)
    requires g.Valid()
    ensures (exists order :: IsExtension(g, order)) <==> Acyclic(g)
  {
    if order :| IsExtension(g, order) {
      forall c ensures !IsCycle(g, c) {
        if IsCycle(g, c) { CycleExcludesExtension(g, c, order); }
      }
    }
    if Acyclic(g) {
      var run := CompleteGreedy(g, []);
      GreedyOutcome(g, run);
    }
  }

  lemma {:induction false} CompleteGreedy(g: Graph, run: seq<string>) returns (full: seq<string>)
    requires GreedyRun(g, run)
    ensures GreedyRun(g, full) && Stuck(g, full)
    decreases |g.nodes| - |run|
  {
    if Stuck(g, run) {
      full := run;
    } else {
      var ready := set n | n in g.nodes && Ready(g, SetOf(run), n);
      var m :| Ready(g, SetOf(run), m);
      assert m in ready;
      var n := LeastOf(ready);
      GreedyExtend(g, run, n);
      GreedyDistinct(g, run + [n]);
      SubsetSize(SetOf(run + [n]), g.nodes);
      full := CompleteGreedy(g, run + [n]);
    }
  }

  lemma {:induction false} LeastOf(s: set<string>) returns (n: string)
    requires s != {}
    ensures n in s && forall m :: m in s ==> StrLeq(n, m)
    decreases |s|
  {
    n :| n in s;
    StrLeqReflexive(n);
    var rest := s - {n};
    if rest != {} {
      var m := LeastOf(rest);
      StrLeqTotal(n, m);
      if StrLeq(n, m) {
        forall k | k in s ensures StrLeq(n, k) { if k != n { StrLeqTransitive(n, m, k); } }
      } else {
        n := m;
      }
    }
  }
}
