/**
 Consequences of the contract of `FeatureOrder.Ordered`: when it succeeds, what
 the order respects, and that the order of the input list cannot leak into it.
 */
module OrderTheorems {
  import opened Wrappers
  import opened Text
  import opened Collections
  import opened Topo
  import opened FeatureData
  import opened FeatureIds
  import opened FeatureOrder

  /** Success is exactly: no override, known dependencies, distinct IDs, no cycle. */
  lemma SucceedsIff(fs: seq<ResolvedFeature>, overrideOrder: seq<string>, r: OrderResult)
    requires OrderSpec(fs, overrideOrder, r)
    ensures r.Success?
       <==> overrideOrder == [] && DependsResolvable(fs) && Distinct(IDs(fs)) && Acyclic(GraphOf(fs))
    ensures r == Failure(CircularInstallsAfter)
       <==> overrideOrder == [] && DependsResolvable(fs) && !(Distinct(IDs(fs)) && Acyclic(GraphOf(fs)))
    ensures r.Failure? && r.error.OverrideUnsupported? <==> overrideOrder != []
  {
    if r.Success? {
      GraphMeaning(fs);
      ExtensionIffAcyclic(GraphOf(fs));
      SuccessIsDistinct(fs, r.value);
    }
    hide GraphOf, Acyclic, Distinct, IDs;
    if r.Failure? && r.error.MissingDependency? {
      MissingIsUnresolvable(fs, r.error.feature, r.error.dependency);
    }
  }

  lemma MissingIsUnresolvable(fs: seq<ResolvedFeature>, name: string, d: string)
    requires Lookup(fs, d).None? && DependedOn(fs, name, d)
    ensures !DependsResolvable(fs)
  {
    hide Lookup;
    var i :| 0 <= i < |fs| && fs[i].meta.id == name && d in fs[i].meta.dependsOn;
    assert !KeysResolvable(fs, fs[i].meta.dependsOn.Keys);
  }

  lemma SuccessIsDistinct(fs: seq<ResolvedFeature>, out: seq<ResolvedFeature>)
    requires multiset(out) == multiset(fs) && IsExtension(GraphOf(fs), IDs(out))
    ensures Distinct(IDs(fs))
  {
    NodesOf(fs);
    SameSetOf(out, fs);
    DistinctCardinality(IDs(out));
  }

  /** A "circular" failure among features with distinct IDs comes with an explicit cycle. */
  lemma CircularHasCycle(fs: seq<ResolvedFeature>, r: OrderResult) returns (c: seq<string>)
    requires OrderSpec(fs, [], r) && r == Failure(CircularInstallsAfter) && Distinct(IDs(fs))
    ensures |c| > 0
    ensures forall i :: 0 < i < |c| ==> InstallsAfter(fs, c[i - 1], c[i])
    ensures InstallsAfter(fs, c[|c| - 1], c[0])
  {
    c :| IsCycle(GraphOf(fs), c);
    GraphMeaning(fs);
    forall i | 0 < i < |c| ensures InstallsAfter(fs, c[i - 1], c[i]) {
      assert (c[i - 1], c[i]) in GraphOf(fs).edges;
    }
  }

  /** Two features with the same canonical ID always end in the "circular" error. */
  lemma DuplicateIsCircular(fs: seq<ResolvedFeature>, r: OrderResult, i: nat, j: nat)
    requires OrderSpec(fs, [], r) && DependsResolvable(fs)
    requires i < j < |fs| && ID(fs[i]) == ID(fs[j])
    ensures r == Failure(CircularInstallsAfter)
  {
    assert IDs(fs)[i] == IDs(fs)[j];
    SucceedsIff(fs, [], r);
  }

  /**
   A successful order is a permutation in which every resolved `installsAfter`
   target stands strictly before the feature that names it.
   */
  lemma RespectsReferences(fs: seq<ResolvedFeature>, out: seq<ResolvedFeature>, i: nat, j: nat, t: string)
    requires OrderSpec(fs, [], Success(out))
    requires i < |out| && j < |out| && t in out[j].meta.installsAfter
    requires Lookup(fs, t) == Some(out[i])
    ensures multiset(out) == multiset(fs) && i < j
  {
    SameSetOf(out, fs);
    assert out[j] in SetOf(out);
    GraphMeaning(fs);
    assert Names(fs, out[j], t, ID(out[i]));
    assert InstallsAfter(fs, ID(out[i]), ID(out[j]));
    assert (IDs(out)[i], IDs(out)[j]) in GraphOf(fs).edges;
  }

  /** No other order of the same features that respects the references is lexicographically smaller. */
  lemma LexicographicallyLeast(fs: seq<ResolvedFeature>, out: seq<ResolvedFeature>, other: seq<ResolvedFeature>)
    requires OrderSpec(fs, [], Success(out)) && multiset(other) == multiset(fs)
    requires forall i, j :: 0 <= i < |other| && 0 <= j < |other| && InstallsAfter(fs, ID(other[i]), ID(other[j])) ==> i < j
    ensures LexLeq(IDs(out), IDs(other))
  {
    SuccessIsDistinct(fs, out);
    GraphMeaning(fs);
    SameIDs(fs, other);
    assert IsExtension(GraphOf(fs), IDs(other)) by {
      forall i, j | 0 <= i < |other| && 0 <= j < |other| && (IDs(other)[i], IDs(other)[j]) in GraphOf(fs).edges ensures i < j {
        assert InstallsAfter(fs, ID(other[i]), ID(other[j]));
      }
    }
  }

  // ---------------------------------------------------------------------
  // Which feature comes first

  /** The only permitted success is the greedy one. */
  lemma ResultIsGreedy(fs: seq<ResolvedFeature>, out: seq<ResolvedFeature>)
    requires OrderSpec(fs, [], Success(out))
    ensures GreedyRun(GraphOf(fs), IDs(out))
  {
    var g := GraphOf(fs);
    GraphMeaning(fs);
    ExtensionIffAcyclic(g);
    assert GreedyRun(g, []);
    var run := CompleteGreedy(g, []);
    GreedyOutcome(g, run);
    hide GraphOf, IDs, GreedyRun, Stuck, Acyclic, IsExtension, LexLeq;
    LeastExtensionUnique(g, IDs(out), run);
  }

  /** Every reference of `f` that resolves names one of the first `n` features of `out`. */
  ghost predicate NamesOnlyFirst(fs: seq<ResolvedFeature>, f: ResolvedFeature, out: seq<ResolvedFeature>, n: nat)
    requires n <= |out|
  {
    forall t :: t in f.meta.installsAfter && Lookup(fs, t).Some? ==> exists k :: 0 <= k < n && ID(out[k]) == ID(Lookup(fs, t).value)
  }

  lemma FreeIsReady(fs: seq<ResolvedFeature>, out: seq<ResolvedFeature>, j: nat, i: nat)
    requires OrderSpec(fs, [], Success(out)) && j <= i < |out| && NamesOnlyFirst(fs, out[i], out, j)
    ensures Ready(GraphOf(fs), SetOf(IDs(out)[..j]), ID(out[i]))
  {
    var g, ids := GraphOf(fs), IDs(out);
    GraphMeaning(fs);
    SuccessIsDistinct(fs, out);
    SameIDs(fs, out);
    assert ids[i] in SetOf(ids);
    DistinctPrefix(ids, j, i);
    hide GraphOf, Lookup, ID, IDs, OrderSpec, NamesOnlyFirst, InstallsAfter;
    forall a | (a, ids[i]) in g.edges ensures a in SetOf(ids[..j]) {
      TargetPlaced(fs, out, j, i, a);
    }
    PendingZero(g.edges, SetOf(ids[..j]), ids[i]);
  }

  lemma DistinctPrefix(ids: seq<string>, j: nat, i: nat)
    requires Distinct(ids) && j <= i < |ids|
    ensures ids[i] !in SetOf(ids[..j])
  {
    forall k | 0 <= k < j ensures ids[..j][k] != ids[i] { assert ids[k] != ids[i]; }
  }

  lemma TargetPlaced(fs: seq<ResolvedFeature>, out: seq<ResolvedFeature>, j: nat, i: nat, a: string)
    requires OrderSpec(fs, [], Success(out)) && j <= i < |out| && NamesOnlyFirst(fs, out[i], out, j)
    requires InstallsAfter(fs, a, ID(out[i]))
    ensures a in SetOf(IDs(out)[..j])
  {
    SuccessParts(fs, out);
    hide ID, Lookup, OrderSpec, Distinct;
    var f, t :| Names(fs, f, t, a) && ID(f) == ID(out[i]);
    MemberWithID(fs, out, f, i);
    var k :| 0 <= k < j && ID(out[k]) == a;
    assert IDs(out)[..j][k] == a;
  }

  lemma SuccessParts(fs: seq<ResolvedFeature>, out: seq<ResolvedFeature>)
    requires OrderSpec(fs, [], Success(out))
    ensures multiset(out) == multiset(fs) && Distinct(IDs(out))
  {
    hide GraphOf, IDs, DependsResolvable, LexLeq;
  }

  lemma MemberWithID(fs: seq<ResolvedFeature>, out: seq<ResolvedFeature>, f: ResolvedFeature, i: nat)
    requires multiset(out) == multiset(fs) && Distinct(IDs(out)) && f in fs && i < |out| && ID(f) == ID(out[i])
    ensures f == out[i]
  {
    PermutationMembers(out, fs);
    hide ID;
    var k :| 0 <= k < |out| && out[k] == f;
    assert IDs(out)[k] == IDs(out)[i];
  }

  /** A feature stands before a later one that could have been installed in its place only if its ID comes first in code points. */
  lemma EarlierIsSmaller(fs: seq<ResolvedFeature>, out: seq<ResolvedFeature>, j: nat, i: nat)
    requires OrderSpec(fs, [], Success(out)) && j < i < |out| && NamesOnlyFirst(fs, out[i], out, j)
    ensures CodePointsBefore(ID(out[j]), ID(out[i]))
  {
    ResultIsGreedy(fs, out);
    FreeIsReady(fs, out, j, i);
    var ids := IDs(out);
    assert LeastReady(GraphOf(fs), SetOf(ids[..j]), ids[j]);
    StrLeqMeans(ids[j], ids[i]);
    SuccessIsDistinct(fs, out);
    SameIDs(fs, out);
    assert ids[j] != ids[i];
    hide ID, GraphOf, StrLeq, HasPrefix;
  }

  /** Of two features without resolving references, the one whose ID comes first in code points is installed first. */
  lemma FreeInCodePointOrder(fs: seq<ResolvedFeature>, out: seq<ResolvedFeature>, i: nat, j: nat)
    requires OrderSpec(fs, [], Success(out)) && i < |out| && j < |out|
    requires forall t :: t in out[i].meta.installsAfter || t in out[j].meta.installsAfter ==> Lookup(fs, t).None?
    requires ID(out[i]) != ID(out[j])
    requires HasPrefix(ID(out[j]), ID(out[i]))
          || exists p: nat :: p < |ID(out[i])| && p < |ID(out[j])| && ID(out[i])[..p] == ID(out[j])[..p] && ID(out[i])[p] < ID(out[j])[p]
    ensures i < j
  {
    hide ID, Lookup, HasPrefix, OrderSpec;
    if j < i {
      EarlierIsSmaller(fs, out, j, i);
      BeforeIsOneWay(ID(out[i]), ID(out[j]));
    }
  }

  lemma SameIDs(fs: seq<ResolvedFeature>, gs: seq<ResolvedFeature>)
    requires multiset(fs) == multiset(gs)
    ensures GraphOf(fs).nodes == GraphOf(gs).nodes == SetOf(IDs(gs))
    ensures Distinct(IDs(fs)) <==> Distinct(IDs(gs))
  {
    SameSetOf(fs, gs);
    NodesOf(fs);
    NodesOf(gs);
    assert forall f :: f in fs <==> f in gs by {
      forall f ensures f in fs <==> f in gs { assert f in SetOf(fs) <==> f in SetOf(gs); }
    }
    assert GraphOf(fs).nodes == GraphOf(gs).nodes;
  }

  // ---------------------------------------------------------------------
  // Independence of the input order

  /** `t` names, by short ID, features with more than one canonical ID. */
  ghost predicate AmbiguousTarget(fs: seq<ResolvedFeature>, t: string) {
    var short := StripVersion(t);
    && (forall f :: f in fs ==> ID(f) != short)
    && exists g, h :: g in fs && h in fs && g.meta.id == h.meta.id == short != "" && ID(g) != ID(h)
  }

  /** No `installsAfter` entry is ambiguous; distinct short IDs are enough for that. */
  ghost predicate Unambiguous(fs: seq<ResolvedFeature>) {
    forall f, t :: f in fs && t in f.meta.installsAfter ==> !AmbiguousTarget(fs, t)
  }

  ghost predicate SameMembers<T(!new)>(a: seq<T>, b: seq<T>) {
    forall x :: x in a <==> x in b
  }

  lemma PermutationMembers<T(!new)>(a: seq<T>, b: seq<T>)
    requires multiset(a) == multiset(b)
    ensures SameMembers(a, b)
  {
    SameSetOf(a, b);
    forall x ensures x in a <==> x in b { assert x in SetOf(a) <==> x in SetOf(b); }
  }

  /** Whether an ID is found never depends on the order of the features. */
  lemma LookupFound(fs: seq<ResolvedFeature>, gs: seq<ResolvedFeature>, t: string)
    requires SameMembers(fs, gs)
    ensures Lookup(fs, t).Some? <==> Lookup(gs, t).Some?
    ensures Lookup(fs, t).Some? && !AmbiguousTarget(fs, t) ==> ID(Lookup(fs, t).value) == ID(Lookup(gs, t).value)
  {
    hide ID, StripVersion;
    var short := StripVersion(t);
    assert short in ByID(fs) <==> short in ByID(gs);
    assert short in ByShortID(fs) <==> short in ByShortID(gs);
  }

  lemma DependsInvariant(fs: seq<ResolvedFeature>, gs: seq<ResolvedFeature>)
    requires SameMembers(fs, gs) && DependsResolvable(fs)
    ensures DependsResolvable(gs)
  {
    forall f, d | f in gs && d in f.meta.dependsOn.Keys ensures Lookup(gs, d).Some? {
      assert KeysResolvable(fs, f.meta.dependsOn.Keys);
      LookupFound(fs, gs, d);
    }
    forall f | f in gs ensures KeysResolvable(gs, f.meta.dependsOn.Keys) {}
  }

  lemma UnambiguousInvariant(fs: seq<ResolvedFeature>, gs: seq<ResolvedFeature>)
    requires SameMembers(fs, gs) && Unambiguous(fs)
    ensures Unambiguous(gs)
  {
    hide ID, StripVersion;
    forall f, t | f in gs && t in f.meta.installsAfter ensures !AmbiguousTarget(gs, t) {
      assert !AmbiguousTarget(fs, t);
    }
  }

  lemma EdgesInvariant(fs: seq<ResolvedFeature>, gs: seq<ResolvedFeature>, a: string, b: string)
    requires SameMembers(fs, gs) && Unambiguous(fs) && InstallsAfter(fs, a, b)
    ensures InstallsAfter(gs, a, b)
  {
    hide Lookup, ID, AmbiguousTarget;
    var f, t :| Names(fs, f, t, a) && ID(f) == b;
    LookupFound(fs, gs, t);
    assert Names(gs, f, t, a);
  }

  /** Graphs that agree on nodes and on which edges there are. */
  ghost predicate SameGraph(g: Graph, h: Graph) {
    g.nodes == h.nodes && forall e :: e in g.edges <==> e in h.edges
  }

  lemma GraphInvariant(fs: seq<ResolvedFeature>, gs: seq<ResolvedFeature>)
    requires multiset(fs) == multiset(gs) && Unambiguous(fs)
    ensures SameGraph(GraphOf(fs), GraphOf(gs))
  {
    PermutationMembers(fs, gs);
    UnambiguousInvariant(fs, gs);
    SameIDs(fs, gs);
    GraphMeaning(fs);
    GraphMeaning(gs);
    hide GraphOf, InstallsAfter, Unambiguous, SameMembers, Distinct, IDs, Graph.Valid, SetOf;
    forall e: (string, string) ensures e in GraphOf(fs).edges <==> e in GraphOf(gs).edges {
      assert e == (e.0, e.1);
      if InstallsAfter(fs, e.0, e.1) { EdgesInvariant(fs, gs, e.0, e.1); }
      if InstallsAfter(gs, e.0, e.1) { EdgesInvariant(gs, fs, e.0, e.1); }
    }
  }

  lemma SameGraphFacts(g: Graph, h: Graph)
    requires SameGraph(g, h)
    ensures Acyclic(g) <==> Acyclic(h)
    ensures forall order :: IsLeastExtension(g, order) <==> IsLeastExtension(h, order)
  {
    forall c ensures IsCycle(g, c) <==> IsCycle(h, c) {}
    forall order ensures IsExtension(g, order) <==> IsExtension(h, order) {}
  }

  /** The same order, or the same kind of failure. */
  ghost predicate SameOutcome(a: OrderResult, b: OrderResult) {
    || (a.Success? && a == b)
    || (a.Failure? && b.Failure? && a.error.MissingDependency? && b.error.MissingDependency?)
    || (a.Failure? && a == b)
  }

  /** Permuting the input changes nothing, as long as no short-ID reference is ambiguous. */
  lemma InputOrderIrrelevant(fs: seq<ResolvedFeature>, gs: seq<ResolvedFeature>, overrideOrder: seq<string>, r: OrderResult, s: OrderResult)
    requires multiset(fs) == multiset(gs) && Unambiguous(fs)
    requires OrderSpec(fs, overrideOrder, r) && OrderSpec(gs, overrideOrder, s)
    ensures SameOutcome(r, s)
  {
    SucceedsIff(fs, overrideOrder, r);
    SucceedsIff(gs, overrideOrder, s);
    PermutationMembers(fs, gs);
    PermutationMembers(gs, fs);
    if DependsResolvable(fs) { DependsInvariant(fs, gs); }
    if DependsResolvable(gs) { DependsInvariant(gs, fs); }
    SameIDs(fs, gs);
    GraphInvariant(fs, gs);
    SameGraphFacts(GraphOf(fs), GraphOf(gs));
    hide GraphOf, DependsResolvable, Distinct, Acyclic, IsLeastExtension, IDs, Unambiguous;
    if r.Success? {
      SameOutput(fs, r.value, s.value);
    }
  }

  lemma SameOutput(fs: seq<ResolvedFeature>, a: seq<ResolvedFeature>, b: seq<ResolvedFeature>)
    requires multiset(a) == multiset(fs) == multiset(b) && Distinct(IDs(fs))
    requires IsLeastExtension(GraphOf(fs), IDs(a)) && IsLeastExtension(GraphOf(fs), IDs(b))
    ensures a == b
  {
    LeastExtensionUnique(GraphOf(fs), IDs(a), IDs(b));
    SameIDs(fs, b);
    PermutationMembers(a, b);
    assert forall x :: x in a ==> x in b;
    hide *;
    assert |a| == |IDs(a)| == |IDs(b)| == |b|;
    forall i | 0 <= i < |a| ensures a[i] == b[i] {
      assert a[i] in b;
      var k :| 0 <= k < |b| && b[k] == a[i];
      DistinctAt(IDs(b), k, i);
    }
  }

  lemma DistinctAt(ids: seq<string>, j: nat, k: nat)
    requires Distinct(ids) && j < |ids| && k < |ids| && ids[j] == ids[k]
    ensures j == k
  {
  }

  // ---------------------------------------------------------------------
  // The condition is needed

  /**
   Features `a` and `c` share the short ID `tool`, which `b` installs after; the
   canonical IDs are in the order `a`, `b`, `c`.
   */
  ghost predicate SharedShortID(a: ResolvedFeature, b: ResolvedFeature, c: ResolvedFeature, tool: string) {
    && StrLeq(ID(a), ID(b)) && StrLeq(ID(b), ID(c)) && Distinct([ID(a), ID(b), ID(c)])
    && StripVersion(tool) == tool && tool !in [ID(a), ID(b), ID(c)]
    && a.meta.id == c.meta.id == tool != ""
    && a.meta.installsAfter == [] && b.meta.installsAfter == [tool] && c.meta.installsAfter == []
    && a.meta.dependsOn == b.meta.dependsOn == c.meta.dependsOn == map[]
  }

  /** The last feature with the short ID is the one that is found. */
  lemma ToolIs(fs: seq<ResolvedFeature>, last: ResolvedFeature, tool: string)
    requires |fs| > 0 && fs[|fs| - 1] == last && last.meta.id == tool != "" && StripVersion(tool) == tool
    requires forall f :: f in fs ==> ID(f) != tool
    ensures Lookup(fs, tool) == Some(last)
  {
    hide StripVersion, ID;
    assert tool !in ByID(fs);
  }

  /** The only edge leads from the last feature with the short ID to `b`. */
  lemma OnlyEdge(fs: seq<ResolvedFeature>, b: ResolvedFeature, last: ResolvedFeature, tool: string)
    requires Lookup(fs, tool) == Some(last) && b in fs && b.meta.installsAfter == [tool]
    requires forall f :: f in fs && f != b ==> f.meta.installsAfter == []
    ensures forall x, y :: InstallsAfter(fs, x, y) <==> x == ID(last) && y == ID(b)
  {
    hide Lookup, ID;
    assert Names(fs, b, tool, ID(last));
  }

  lemma NotListed(x: string, a: string, b: string, c: string)
    requires x !in [a, b, c]
    ensures x != a && x != b && x != c
  {
    var list := [a, b, c];
    assert list[0] in list && list[1] in list && list[2] in list;
  }

  lemma ExampleEdge(fs: seq<ResolvedFeature>, a: ResolvedFeature, b: ResolvedFeature, c: ResolvedFeature,
                    last: ResolvedFeature, tool: string)
    requires SharedShortID(a, b, c, tool) && (last == a || last == c)
    requires |fs| == 3 && fs[0] == b && fs[2] == last && (fs[1] == a || fs[1] == c)
    ensures forall x, y :: InstallsAfter(fs, x, y) <==> x == ID(last) && y == ID(b)
  {
    hide ID, StripVersion, StrLeq, Lookup;
    assert forall f :: f in fs ==> f == a || f == b || f == c;
    assert b in fs;
    assert tool != ID(a) && tool != ID(b) && tool != ID(c) by { NotListed(tool, ID(a), ID(b), ID(c)); }
    hide Distinct;
    ToolIs(fs, last, tool);
    OnlyEdge(fs, b, last, tool);
  }

  /** A graph on three nodes in order, with the single edge from the first to the second. */
  ghost predicate SingleEdge(g: Graph, order: seq<string>) {
    && |order| == 3 && Distinct(order) && Sorted(order)
    && g.nodes == SetOf(order)
    && forall x, y :: (x, y) in g.edges <==> x == order[0] && y == order[1]
  }

  lemma SingleEdgeExtension(g: Graph, order: seq<string>)
    requires SingleEdge(g, order)
    ensures IsExtension(g, order) && |g.nodes| == 3
  {
    DistinctCardinality(order);
  }

  lemma SingleEdgeLeast(g: Graph, order: seq<string>, out: seq<string>)
    requires SingleEdge(g, order) && IsLeastExtension(g, out)
    ensures out == order
  {
    hide StrLeq;
    SingleEdgeExtension(g, order);
    DistinctCardinality(out);
    assert LexLeq(out, order);
    assert forall i :: 0 <= i < |out| ==> out[i] in SetOf(out);
    if out != order {
      var p: nat :| FirstDifference(out, order, p) && StrLeq(out[p], order[p]);
      SameBefore(out, order, p);
      var k :| 0 <= k < 3 && order[k] == out[p];
      StrLeqAntisymmetric(out[p], order[p]);
    }
  }

  lemma ThreeMembers(fs: seq<ResolvedFeature>, a: ResolvedFeature, b: ResolvedFeature, c: ResolvedFeature)
    requires multiset(fs) == multiset{a, b, c}
    ensures forall f :: f in fs <==> f == a || f == b || f == c
  {
    forall f ensures f in fs <==> f == a || f == b || f == c {
      assert f in multiset(fs) <==> f in fs;
    }
  }

  lemma ThreeNodes(fs: seq<ResolvedFeature>, a: ResolvedFeature, b: ResolvedFeature, c: ResolvedFeature, order: seq<string>)
    requires forall f :: f in fs <==> f == a || f == b || f == c
    requires order == [ID(a), ID(b), ID(c)]
    ensures GraphOf(fs).nodes == SetOf(order)
  {
    hide ID, EdgesUpTo;
    assert a in fs && b in fs && c in fs;
    assert order[0] == ID(a) && order[1] == ID(b) && order[2] == ID(c);
  }

  lemma NothingNeeded(fs: seq<ResolvedFeature>)
    requires forall f :: f in fs ==> f.meta.dependsOn == map[]
    ensures DependsResolvable(fs)
  {
    hide Lookup;
  }

  lemma SuccessIsLeast(fs: seq<ResolvedFeature>, r: OrderResult)
    requires OrderSpec(fs, [], r)
    ensures r.Success? ==> IsLeastExtension(GraphOf(fs), IDs(r.value))
  {
    hide GraphOf, IDs, IsLeastExtension, DependsResolvable, Lookup;
  }

  lemma IsSingleEdge(g: Graph, order: seq<string>)
    requires |order| == 3 && Distinct(order) && Sorted(order) && g.nodes == SetOf(order)
    requires forall x, y :: (x, y) in g.edges <==> x == order[0] && y == order[1]
    ensures SingleEdge(g, order)
  {
    hide StrLeq, Distinct, Sorted, SetOf;
  }

  /** With the edge from `a` to `b` alone, the graph has a single edge in the above sense. */
  lemma SingleEdgeGraph(fs: seq<ResolvedFeature>, a: ResolvedFeature, b: ResolvedFeature, c: ResolvedFeature, order: seq<string>)
    requires multiset(fs) == multiset{a, b, c} && |fs| == 3 && order == [ID(a), ID(b), ID(c)] && Distinct(order) && Sorted(order)
    requires forall x, y :: InstallsAfter(fs, x, y) <==> x == ID(a) && y == ID(b)
    ensures GraphOf(fs).Valid() && SingleEdge(GraphOf(fs), order)
  {
    ThreeMembers(fs, a, b, c);
    ThreeNodes(fs, a, b, c, order);
    GraphMeaning(fs);
    IsSingleEdge(GraphOf(fs), order);
    hide *;
  }

  /** So ordering succeeds with `a`, `b`, `c`. */
  lemma SingleEdgeOrder(fs: seq<ResolvedFeature>, order: seq<string>, r: OrderResult)
    requires |fs| == 3 && GraphOf(fs).Valid() && SingleEdge(GraphOf(fs), order)
    requires forall f :: f in fs ==> f.meta.dependsOn == map[]
    requires OrderSpec(fs, [], r)
    ensures r.Success? && IDs(r.value) == order
  {
    var g := GraphOf(fs);
    SingleEdgeExtension(g, order);
    ExtensionIffAcyclic(g);
    NodesOf(fs);
    NothingNeeded(fs);
    SucceedsIff(fs, [], r);
    SuccessIsLeast(fs, r);
    hide *;
    if r.Success? { SingleEdgeLeast(g, order, IDs(r.value)); }
  }

  /** One edge makes a cycle only as a self-loop. */
  lemma OneEdgeAcyclic(a: seq<ResolvedFeature>, y: string, x: string)
    requires forall p, q :: InstallsAfter(a, p, q) <==> p == y && q == x
    ensures Acyclic(GraphOf(a)) <==> y != x
  {
    GraphMeaning(a);
    var g := GraphOf(a);
    hide GraphOf, InstallsAfter;
    assert forall p, q :: (p, q) in g.edges <==> p == y && q == x;
    if y == x {
      assert IsCycle(g, [x]);
    } else {
      forall c | IsWalk(g, c) && |c| > 1 ensures c[0] == y && c[1] == x {
        assert (c[1 - 1], c[1]) in g.edges;
      }
    }
  }

  lemma OtherOrderDistinct(a: ResolvedFeature, b: ResolvedFeature, c: ResolvedFeature)
    requires Distinct([ID(a), ID(b), ID(c)])
    ensures Distinct(IDs([b, a, c])) && ID(b) != ID(c)
  {
    var ids := [ID(a), ID(b), ID(c)];
    assert ids[0] != ids[1] && ids[0] != ids[2] && ids[1] != ids[2];
    hide ID;
  }

  /** With a single edge between two of the features, ordering succeeds. */
  lemma OneEdgeSucceeds(fs: seq<ResolvedFeature>, y: string, x: string, r: OrderResult)
    requires OrderSpec(fs, [], r) && Distinct(IDs(fs)) && y != x
    requires forall p, q :: InstallsAfter(fs, p, q) <==> p == y && q == x
    requires forall f :: f in fs ==> f.meta.dependsOn == map[]
    ensures r.Success?
  {
    OneEdgeAcyclic(fs, y, x);
    NothingNeeded(fs);
    SucceedsIff(fs, [], r);
    hide *;
  }

  /** Whichever of `a` and `c` is listed last must come before `b`: both orders succeed, and they differ. */
  lemma AmbiguityLeaks(a: ResolvedFeature, b: ResolvedFeature, c: ResolvedFeature, tool: string, r: OrderResult, s: OrderResult)
    requires SharedShortID(a, b, c, tool)
    requires OrderSpec([b, c, a], [], r) && OrderSpec([b, a, c], [], s)
    ensures multiset([b, c, a]) == multiset([b, a, c])
    ensures r.Success? && s.Success? && r.value != s.value
  {
    hide OrderSpec, InstallsAfter, StrLeq, ID, StripVersion;
    ExampleEdge([b, c, a], a, b, c, a, tool);
    ExampleEdge([b, a, c], a, b, c, c, tool);
    var order := [ID(a), ID(b), ID(c)];
    StrLeqTransitive(ID(a), ID(b), ID(c));
    SingleEdgeGraph([b, c, a], a, b, c, order);
    SingleEdgeOrder([b, c, a], order, r);
    OtherOrderDistinct(a, b, c);
    OneEdgeSucceeds([b, a, c], ID(c), ID(b), s);
    if r.value == s.value {
      EdgeRespected([b, a, c], r.value, ID(c), ID(b), 2, 1);
    }
  }

  lemma EdgeRespected(fs: seq<ResolvedFeature>, out: seq<ResolvedFeature>, x: string, y: string, i: nat, j: nat)
    requires OrderSpec(fs, [], Success(out)) && InstallsAfter(fs, x, y)
    requires i < |out| && j < |out| && IDs(out)[i] == x && IDs(out)[j] == y
    ensures i < j
  {
    GraphMeaning(fs);
    hide ID, GraphOf, InstallsAfter;
    assert (IDs(out)[i], IDs(out)[j]) in GraphOf(fs).edges;
  }

  /** A local feature that is given by its path, short ID and references only. */
  function PlainFeature(rawID: string, short: string, after: seq<string>): ResolvedFeature {
    ResolvedFeature(
      FeatureRef(rawID, "", "", "", "latest", map[], SourceLocal),
      "",
      FeatureMeta(short, "", "", map[], false, false, [], [], "", None, map[], after, None, None, None, None, None, None),
      "")
  }

  lemma PlainID(rawID: string, short: string, after: seq<string>)
    requires rawID != "" && ':' !in rawID
    ensures ID(PlainFeature(rawID, short, after)) == rawID && StripVersion(rawID) == rawID
  {
    hide FirstFrom, LastBefore;
  }

  /** Such features exist: three local ones. */
  lemma AmbiguityExample() returns (a: ResolvedFeature, b: ResolvedFeature, c: ResolvedFeature, tool: string)
    ensures SharedShortID(a, b, c, tool)
  {
    tool := "t";
    a, b, c := PlainFeature("./a", tool, []), PlainFeature("./b", "u", [tool]), PlainFeature("./c", tool, []);
    assert ':' !in "./a" && ':' !in "./b" && ':' !in "./c" && ':' !in tool;
    PlainID("./a", tool, []);
    PlainID("./b", "u", [tool]);
    PlainID("./c", tool, []);
    PlainID(tool, tool, []);
    InOrder('a', 'b');
    InOrder('b', 'c');
    hide ID, StripVersion, StrLeq;
    assert "./a"[2] == 'a' && "./b"[2] == 'b' && "./c"[2] == 'c' && |tool| == 1 && |"./a"| == |"./b"| == |"./c"| == 3;
  }

  lemma InOrder(x: char, y: char)
    requires x < y
    ensures StrLeq("./" + [x], "./" + [y])
  {
    var a, b := "./" + [x], "./" + [y];
    assert a[0] == b[0] == '.' && a[1..][0] == b[1..][0] == '/';
    assert a[1..][1..] == [x] && b[1..][1..] == [y];
    assert StrLeq([x], [y]);
  }
}
