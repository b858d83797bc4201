/**
 Installation order of features (features/order.go): the graph of resolved
 `installsAfter` references and Kahn's algorithm with a queue that is sorted
 after every step.
 */
module FeatureOrder {
  import opened Wrappers
  import opened Text
  import opened Collections
  import opened Topo
  import opened FeatureData
  import opened FeatureIds

  datatype OrderError =
    | OverrideUnsupported
    | MissingDependency(feature: string, dependency: string)
    | CircularInstallsAfter

  type OrderResult = Result<seq<ResolvedFeature>, OrderError>

  function ID(f: ResolvedFeature): string {
    CanonicalID(f.ref)
  }

  function IDs(fs: seq<ResolvedFeature>): (ids: seq<string>)
    ensures |ids| == |fs| && forall i :: 0 <= i < |fs| ==> ids[i] == ID(fs[i])
  {
    seq(|fs|, i requires 0 <= i < |fs| => ID(fs[i]))
  }

  // ---------------------------------------------------------------------
  // The two indexes; the last feature with a given key wins

  function ByID(fs: seq<ResolvedFeature>): (m: map<string, ResolvedFeature>)
    ensures forall k :: k in m ==> m[k] in fs && ID(m[k]) == k
    ensures forall f :: f in fs ==> ID(f) in m
  {
    if fs == [] then map[]
    else
      var f := fs[|fs| - 1];
      assert fs == fs[..|fs| - 1] + [f];
      ByID(fs[..|fs| - 1])[ID(f) := f]
  }

  function ByShortID(fs: seq<ResolvedFeature>): (m: map<string, ResolvedFeature>)
    ensures forall k :: k in m ==> m[k] in fs && m[k].meta.id == k != ""
    ensures forall f :: f in fs && f.meta.id != "" ==> f.meta.id in m
  {
    if fs == [] then map[]
    else
      var f := fs[|fs| - 1];
      assert fs == fs[..|fs| - 1] + [f];
      var m := ByShortID(fs[..|fs| - 1]);
      if f.meta.id != "" then m[f.meta.id := f] else m
  }

  /** `lookupFeature`. */
  function Lookup(fs: seq<ResolvedFeature>, id: string): (r: Option<ResolvedFeature>)
    ensures r.Some? ==> r.value in fs
  {
    var stripped := StripVersion(id);
    if stripped in ByID(fs) then Some(ByID(fs)[stripped])
    else if stripped in ByShortID(fs) then Some(ByShortID(fs)[stripped])
    else None
  }

  lemma {:induction false} ByIDMeans(fs: seq<ResolvedFeature>, i: nat)
    requires i < |fs| && forall k :: i < k < |fs| ==> ID(fs[k]) != ID(fs[i])
    ensures ID(fs[i]) in ByID(fs) && ByID(fs)[ID(fs[i])] == fs[i]
  {
    hide ID;
    if i < |fs| - 1 { ByIDMeans(fs[..|fs| - 1], i); }
  }

  lemma {:induction false} ByShortIDMeans(fs: seq<ResolvedFeature>, i: nat)
    requires i < |fs| && fs[i].meta.id != "" && forall k :: i < k < |fs| ==> fs[k].meta.id != fs[i].meta.id
    ensures fs[i].meta.id in ByShortID(fs) && ByShortID(fs)[fs[i].meta.id] == fs[i]
  {
    ByShortIDStep(fs);
    hide ByShortID;
    if i < |fs| - 1 { ByShortIDMeans(fs[..|fs| - 1], i); }
  }

  lemma ByShortIDStep(fs: seq<ResolvedFeature>)
    requires fs != []
    ensures var f, front := fs[|fs| - 1], ByShortID(fs[..|fs| - 1]);
            ByShortID(fs) == if f.meta.id != "" then front[f.meta.id := f] else front
  {
  }

  /**
   What a reference finds: the last feature whose canonical ID is the reference without its tag,
   or else the last one whose short ID that is.
   */
  lemma LookupMeans(fs: seq<ResolvedFeature>, id: string)
    ensures var s := StripVersion(id);
            forall i :: 0 <= i < |fs| && ID(fs[i]) == s && (forall k :: i < k < |fs| ==> ID(fs[k]) != s) ==>
              Lookup(fs, id) == Some(fs[i])
    ensures var s := StripVersion(id);
            (forall k :: 0 <= k < |fs| ==> ID(fs[k]) != s) ==>
              forall i :: 0 <= i < |fs| && fs[i].meta.id == s != "" && (forall k :: i < k < |fs| ==> fs[k].meta.id != s) ==>
                Lookup(fs, id) == Some(fs[i])
    ensures var s := StripVersion(id);
            (forall i :: 0 <= i < |fs| ==> ID(fs[i]) != s && (fs[i].meta.id != s || s == "")) ==> Lookup(fs, id) == None
  {
    var s := StripVersion(id);
    hide ID, StripVersion, ByID, ByShortID;
    forall i | 0 <= i < |fs| && ID(fs[i]) == s && (forall k :: i < k < |fs| ==> ID(fs[k]) != s)
      ensures s in ByID(fs) && ByID(fs)[s] == fs[i]
    {
      ByIDMeans(fs, i);
    }
    forall i | 0 <= i < |fs| && fs[i].meta.id == s != "" && (forall k :: i < k < |fs| ==> fs[k].meta.id != s)
      ensures s in ByShortID(fs) && ByShortID(fs)[s] == fs[i]
    {
      ByShortIDMeans(fs, i);
    }
  }

  // ---------------------------------------------------------------------
  // The graph

  /** The edges contributed by the first `n` references of `f`. */
  function FeatureEdges(fs: seq<ResolvedFeature>, f: ResolvedFeature, n: nat): seq<(string, string)>
    requires n <= |f.meta.installsAfter|
  {
    if n == 0 then []
    else
      var target := Lookup(fs, f.meta.installsAfter[n - 1]);
      FeatureEdges(fs, f, n - 1) + if target.Some? then [(ID(target.value), ID(f))] else []
  }

  /** The edges contributed by the first `n` features. */
  function EdgesUpTo(fs: seq<ResolvedFeature>, n: nat): seq<(string, string)>
    requires n <= |fs|
  {
    if n == 0 then []
    else EdgesUpTo(fs, n - 1) + FeatureEdges(fs, fs[n - 1], |fs[n - 1].meta.installsAfter|)
  }

  function GraphOf(fs: seq<ResolvedFeature>): Graph {
    Graph(set f | f in fs :: ID(f), EdgesUpTo(fs, |fs|))
  }

  /** Some feature `b` names `a` in its `installsAfter`. */
  ghost predicate InstallsAfter(fs: seq<ResolvedFeature>, a: string, b: string) {
    exists f, t :: Names(fs, f, t, a) && ID(f) == b
  }

  /** `t` is an `installsAfter` entry of `f` that resolves to the feature `a`. */
  ghost predicate Names(fs: seq<ResolvedFeature>, f: ResolvedFeature, t: string, a: string) {
    f in fs && t in f.meta.installsAfter && Lookup(fs, t).Some? && ID(Lookup(fs, t).value) == a
  }

  /** One of the references `ts` of `f` resolves to `a`. */
  ghost predicate NamedIn(fs: seq<ResolvedFeature>, f: ResolvedFeature, ts: seq<string>, a: string) {
    exists t :: t in ts && Names(fs, f, t, a)
  }

  lemma NamedInMore(fs: seq<ResolvedFeature>, f: ResolvedFeature, ts: seq<string>, t: string, a: string)
    ensures NamedIn(fs, f, ts + [t], a) <==> NamedIn(fs, f, ts, a) || Names(fs, f, t, a)
  {
    hide Names;
    assert t in ts + [t];
    forall u | u in ts ensures u in ts + [t] {}
  }

  lemma {:induction false} FeatureEdgesMeaning(fs: seq<ResolvedFeature>, f: ResolvedFeature, n: nat, a: string, b: string)
    requires n <= |f.meta.installsAfter| && f in fs
    ensures (a, b) in FeatureEdges(fs, f, n) <==> ID(f) == b && NamedIn(fs, f, f.meta.installsAfter[..n], a)
  {
    hide Lookup, ID;
    if n > 0 {
      FeatureEdgesMeaning(fs, f, n - 1, a, b);
      var last := f.meta.installsAfter[n - 1];
      assert f.meta.installsAfter[..n] == f.meta.installsAfter[..n - 1] + [last];
      NamedInMore(fs, f, f.meta.installsAfter[..n - 1], last, a);
      assert last in f.meta.installsAfter;
      hide NamedIn;
    }
  }

  /** One of the features `some` is named `b` and installs after `a`. */
  ghost predicate NamedByOneOf(fs: seq<ResolvedFeature>, some: seq<ResolvedFeature>, a: string, b: string) {
    exists f :: f in some && ID(f) == b && NamedIn(fs, f, f.meta.installsAfter, a)
  }

  lemma NamedByMore(fs: seq<ResolvedFeature>, some: seq<ResolvedFeature>, f: ResolvedFeature, a: string, b: string)
    ensures NamedByOneOf(fs, some + [f], a, b)
       <==> NamedByOneOf(fs, some, a, b) || (ID(f) == b && NamedIn(fs, f, f.meta.installsAfter, a))
  {
    hide NamedIn, ID;
    assert f in some + [f];
    forall u | u in some ensures u in some + [f] {}
  }

  lemma EdgesUpToStep(fs: seq<ResolvedFeature>, n: nat, a: string, b: string)
    requires 0 < n <= |fs|
    ensures (a, b) in EdgesUpTo(fs, n)
       <==> (a, b) in EdgesUpTo(fs, n - 1) || (ID(fs[n - 1]) == b && NamedIn(fs, fs[n - 1], fs[n - 1].meta.installsAfter, a))
  {
    var f := fs[n - 1];
    FeatureEdgesMeaning(fs, f, |f.meta.installsAfter|, a, b);
    assert f.meta.installsAfter[..|f.meta.installsAfter|] == f.meta.installsAfter;
    hide FeatureEdges, NamedIn, ID;
  }

  lemma NoEdgesYet(fs: seq<ResolvedFeature>, a: string, b: string)
    ensures (a, b) !in EdgesUpTo(fs, 0) && !NamedByOneOf(fs, [], a, b)
  {
  }

  lemma {:induction false} EdgesUpToMeaning(fs: seq<ResolvedFeature>, n: nat, a: string, b: string)
    requires n <= |fs|
    ensures (a, b) in EdgesUpTo(fs, n) <==> NamedByOneOf(fs, fs[..n], a, b)
  {
    hide *;
    if n == 0 {
      NoEdgesYet(fs, a, b);
      assert fs[..0] == [];
    } else {
      EdgesUpToMeaning(fs, n - 1, a, b);
      EdgesUpToStep(fs, n, a, b);
      assert fs[..n] == fs[..n - 1] + [fs[n - 1]];
      NamedByMore(fs, fs[..n - 1], fs[n - 1], a, b);
    }
  }

  lemma NamedByIsInstallsAfter(fs: seq<ResolvedFeature>, a: string, b: string)
    ensures NamedByOneOf(fs, fs, a, b) <==> InstallsAfter(fs, a, b)
  {
    hide Lookup, ID;
    if InstallsAfter(fs, a, b) {
      var f, t :| Names(fs, f, t, a) && ID(f) == b;
      assert NamedIn(fs, f, f.meta.installsAfter, a);
    }
  }

  lemma GraphMeaning(fs: seq<ResolvedFeature>)
    ensures GraphOf(fs).Valid()
    ensures forall a, b :: (a, b) in GraphOf(fs).edges <==> InstallsAfter(fs, a, b)
  {
    hide Lookup, ID;
    assert fs[..|fs|] == fs;
    forall a, b ensures (a, b) in GraphOf(fs).edges <==> InstallsAfter(fs, a, b) {
      EdgesUpToMeaning(fs, |fs|, a, b);
      NamedByIsInstallsAfter(fs, a, b);
    }
    forall e | e in GraphOf(fs).edges ensures e.0 in GraphOf(fs).nodes && e.1 in GraphOf(fs).nodes {
      assert InstallsAfter(fs, e.0, e.1);
    }
  }

  // ---------------------------------------------------------------------
  // What Ordered promises

  ghost predicate DependsResolvable(fs: seq<ResolvedFeature>) {
    forall f :: f in fs ==> KeysResolvable(fs, f.meta.dependsOn.Keys)
  }

  ghost predicate KeysResolvable(fs: seq<ResolvedFeature>, ids: set<string>) {
    forall d :: d in ids ==> Lookup(fs, d).Some?
  }

  /** A feature called `name` depends on `d`. */
  ghost predicate DependedOn(fs: seq<ResolvedFeature>, name: string, d: string) {
    exists i :: 0 <= i < |fs| && fs[i].meta.id == name && d in fs[i].meta.dependsOn
  }

  /** The permitted outcomes of `Ordered`, without reference to how it works. */
  ghost predicate OrderSpec(fs: seq<ResolvedFeature>, overrideOrder: seq<string>, r: OrderResult) {
    match r
    case Failure(OverrideUnsupported) =>
      overrideOrder != []
    case Failure(MissingDependency(name, d)) =>
      && overrideOrder == []
      && Lookup(fs, d).None? && DependedOn(fs, name, d)
    case Failure(CircularInstallsAfter) =>
      && overrideOrder == [] && DependsResolvable(fs)
      && !(Distinct(IDs(fs)) && Acyclic(GraphOf(fs)))
    case Success(out) =>
      && overrideOrder == [] && DependsResolvable(fs)
      && multiset(out) == multiset(fs)
      && IsLeastExtension(GraphOf(fs), IDs(out))
  }

  // ---------------------------------------------------------------------
  // The algorithm

  function Adjacent(adj: map<string, seq<string>>, a: string): seq<string> {
    if a in adj then adj[a] else []
  }

  ghost predicate AdjMatches(adj: map<string, seq<string>>, edges: seq<(string, string)>) {
    forall a :: Adjacent(adj, a) == Targets(edges, a)
  }

  ghost predicate DegreeMatches(inDegree: map<string, int>, g: Graph, done: set<string>) {
    inDegree.Keys == g.nodes && forall n :: n in g.nodes ==> inDegree[n] == Pending(g.edges, done, n)
  }

  ghost predicate Indexes(fs: seq<ResolvedFeature>, byID: map<string, ResolvedFeature>, byShortID: map<string, ResolvedFeature>) {
    byID == ByID(fs) && byShortID == ByShortID(fs)
  }

  lemma IndexMore(fs: seq<ResolvedFeature>, f: ResolvedFeature, byID: map<string, ResolvedFeature>, byShortID: map<string, ResolvedFeature>)
    requires Indexes(fs, byID, byShortID)
    ensures Indexes(fs + [f], byID[CanonicalID(f.ref) := f], if f.meta.id != "" then byShortID[f.meta.id := f] else byShortID)
  {
    hide CanonicalID;
    assert (fs + [f])[..|fs|] == fs;
  }

  lemma NothingIndexed()
    ensures Indexes([], map[], map[])
  {
  }

  lemma IndexFacts(fs: seq<ResolvedFeature>, byID: map<string, ResolvedFeature>, byShortID: map<string, ResolvedFeature>)
    requires Indexes(fs, byID, byShortID)
    ensures byID.Keys == GraphOf(fs).nodes
    ensures forall k :: k in byID ==> ID(byID[k]) == k && byID[k] in fs
  {
    hide ID;
  }

  method BuildIndex(features: seq<ResolvedFeature>)
    returns (byID: map<string, ResolvedFeature>, byShortID: map<string, ResolvedFeature>)
    ensures Indexes(features, byID, byShortID)
  {
    hide *;
    NothingIndexed();
    byID, byShortID := map[], map[];
    for i := 0 to |features|
      invariant Indexes(features[..i], byID, byShortID)
    {
      IndexMore(features[..i], features[i], byID, byShortID);
      assert features[..i + 1] == features[..i] + [features[i]];
      byID := byID[CanonicalID(features[i].ref) := features[i]];
      if features[i].meta.id != "" {
        byShortID := byShortID[features[i].meta.id := features[i]];
      }
    }
    assert features[..|features|] == features;
  }

  function LookupIn(byID: map<string, ResolvedFeature>, byShortID: map<string, ResolvedFeature>, id: string): Option<ResolvedFeature> {
    var stripped := StripVersion(id);
    if stripped in byID then Some(byID[stripped])
    else if stripped in byShortID then Some(byShortID[stripped])
    else None
  }

  lemma LookupAgrees(fs: seq<ResolvedFeature>, byID: map<string, ResolvedFeature>, byShortID: map<string, ResolvedFeature>, id: string)
    requires Indexes(fs, byID, byShortID)
    ensures LookupIn(byID, byShortID, id) == Lookup(fs, id)
  {
  }

  /** The `dependsOn` keys of one feature, visited in any order. */
  method CheckKeys(ghost features: seq<ResolvedFeature>, f: ResolvedFeature, byID: map<string, ResolvedFeature>,
                   byShortID: map<string, ResolvedFeature>)
    returns (missing: Option<string>)
    requires Indexes(features, byID, byShortID)
    ensures missing.None? ==> KeysResolvable(features, f.meta.dependsOn.Keys)
    ensures missing.Some? ==> missing.value in f.meta.dependsOn && Lookup(features, missing.value).None?
  {
    hide Lookup, LookupIn, ByID, ByShortID;
    var keys := f.meta.dependsOn.Keys;
    while keys != {}
      invariant keys <= f.meta.dependsOn.Keys
      invariant KeysResolvable(features, f.meta.dependsOn.Keys - keys)
      decreases |keys|
    {
      var depID :| depID in keys;
      LookupAgrees(features, byID, byShortID, depID);
      if LookupIn(byID, byShortID, depID).None? {
        return Some(depID);
      }
      keys := keys - {depID};
    }
    assert f.meta.dependsOn.Keys - keys == f.meta.dependsOn.Keys;
    return None;
  }

  method CheckDependsOn(features: seq<ResolvedFeature>, byID: map<string, ResolvedFeature>, byShortID: map<string, ResolvedFeature>)
    returns (missing: Option<(string, string)>)
    requires Indexes(features, byID, byShortID)
    ensures missing.None? ==> DependsResolvable(features)
    ensures missing.Some? ==> Lookup(features, missing.value.1).None? && DependedOn(features, missing.value.0, missing.value.1)
  {
    hide Lookup, KeysResolvable, ByID, ByShortID;
    for i := 0 to |features|
      invariant forall k :: 0 <= k < i ==> KeysResolvable(features, features[k].meta.dependsOn.Keys)
    {
      var depID := CheckKeys(features, features[i], byID, byShortID);
      if depID.Some? {
        return Some((features[i].meta.id, depID.value));
      }
    }
    assert DependsResolvable(features);
    return None;
  }

  /** The bookkeeping agrees with a list of edges. */
  ghost predicate Records(adj: map<string, seq<string>>, inDegree: map<string, int>, nodes: set<string>, edges: seq<(string, string)>) {
    AdjMatches(adj, edges) && DegreeMatches(inDegree, Graph(nodes, edges), {})
  }

  lemma AdjacencyAdded(adj: map<string, seq<string>>, edges: seq<(string, string)>, after: string, id: string)
    requires AdjMatches(adj, edges)
    ensures AdjMatches(adj[after := Adjacent(adj, after) + [id]], edges + [(after, id)])
  {
    var longer := edges + [(after, id)];
    assert longer[..|longer| - 1] == edges;
    var bigger := adj[after := Adjacent(adj, after) + [id]];
    forall a ensures Adjacent(bigger, a) == Targets(longer, a) {
      assert Adjacent(adj, a) == Targets(edges, a);
    }
  }

  lemma DegreeAdded(inDegree: map<string, int>, nodes: set<string>, edges: seq<(string, string)>, after: string, id: string)
    requires DegreeMatches(inDegree, Graph(nodes, edges), {}) && id in nodes
    ensures DegreeMatches(inDegree[id := inDegree[id] + 1], Graph(nodes, edges + [(after, id)]), {})
  {
    hide Pending;
    forall n ensures Pending(edges + [(after, id)], {}, n) == Pending(edges, {}, n) + if n == id then 1 else 0 {
      PendingMore(edges, after, id, n);
    }
  }

  lemma PendingMore(edges: seq<(string, string)>, after: string, id: string, n: string)
    ensures Pending(edges + [(after, id)], {}, n) == Pending(edges, {}, n) + if n == id then 1 else 0
  {
    var longer := edges + [(after, id)];
    assert longer[..|longer| - 1] == edges;
  }

  /** Records one edge `after -> id`. */
  lemma EdgeAdded(adj: map<string, seq<string>>, inDegree: map<string, int>, nodes: set<string>,
                  edges: seq<(string, string)>, after: string, id: string)
    requires Records(adj, inDegree, nodes, edges) && id in nodes
    ensures id in inDegree
    ensures Records(adj[after := Adjacent(adj, after) + [id]], inDegree[id := inDegree[id] + 1], nodes, edges + [(after, id)])
  {
    AdjacencyAdded(adj, edges, after, id);
    DegreeAdded(inDegree, nodes, edges, after, id);
    hide AdjMatches, Adjacent, Pending, Targets;
  }

  lemma FeatureEdgesStep(fs: seq<ResolvedFeature>, f: ResolvedFeature, before: seq<(string, string)>, j: nat)
    requires j < |f.meta.installsAfter|
    ensures before + FeatureEdges(fs, f, 0) == before
    ensures var target := Lookup(fs, f.meta.installsAfter[j]);
            before + FeatureEdges(fs, f, j + 1)
            == before + FeatureEdges(fs, f, j) + if target.Some? then [(ID(target.value), ID(f))] else []
  {
    hide Lookup, ID;
  }

  lemma NoReferencesYet(fs: seq<ResolvedFeature>, f: ResolvedFeature, before: seq<(string, string)>)
    ensures before + FeatureEdges(fs, f, 0) == before
  {
    hide Lookup, ID;
  }

  /** What one reference does to the bookkeeping. */
  lemma ReferenceStep(fs: seq<ResolvedFeature>, f: ResolvedFeature, before: seq<(string, string)>, j: nat,
                      nodes: set<string>, adj: map<string, seq<string>>, inDegree: map<string, int>)
    requires j < |f.meta.installsAfter| && ID(f) in nodes
    requires Records(adj, inDegree, nodes, before + FeatureEdges(fs, f, j))
    ensures ID(f) in inDegree
    ensures var target := Lookup(fs, f.meta.installsAfter[j]);
            if target.None? then Records(adj, inDegree, nodes, before + FeatureEdges(fs, f, j + 1))
            else
              var a, id := ID(target.value), ID(f);
              Records(adj[a := Adjacent(adj, a) + [id]], inDegree[id := inDegree[id] + 1], nodes, before + FeatureEdges(fs, f, j + 1))
  {
    FeatureEdgesStep(fs, f, before, j);
    var target := Lookup(fs, f.meta.installsAfter[j]);
    var edges := before + FeatureEdges(fs, f, j);
    assert ID(f) in inDegree;
    hide Lookup, Records, ID, FeatureEdges, Adjacent;
    if target.Some? {
      EdgeAdded(adj, inDegree, nodes, edges, ID(target.value), ID(f));
    } else {
      assert edges + [] == edges;
    }
  }

  /** The references of one feature. */
  method AddEdges(ghost features: seq<ResolvedFeature>, f: ResolvedFeature, byID: map<string, ResolvedFeature>,
                  byShortID: map<string, ResolvedFeature>,
                  ghost nodes: set<string>, ghost before: seq<(string, string)>,
                  adj0: map<string, seq<string>>, inDegree0: map<string, int>)
    returns (adj: map<string, seq<string>>, inDegree: map<string, int>)
    requires Indexes(features, byID, byShortID) && ID(f) in nodes
    requires Records(adj0, inDegree0, nodes, before)
    ensures Records(adj, inDegree, nodes, before + FeatureEdges(features, f, |f.meta.installsAfter|))
  {
    hide *;
    adj, inDegree := adj0, inDegree0;
    var id := ID(f);
    NoReferencesYet(features, f, before);
    for j := 0 to |f.meta.installsAfter|
      invariant Records(adj, inDegree, nodes, before + FeatureEdges(features, f, j))
    {
      var target := LookupIn(byID, byShortID, f.meta.installsAfter[j]);
      LookupAgrees(features, byID, byShortID, f.meta.installsAfter[j]);
      ReferenceStep(features, f, before, j, nodes, adj, inDegree);
      if target.Some? {
        var afterID := ID(target.value);
        adj := adj[afterID := Adjacent(adj, afterID) + [id]];
        inDegree := inDegree[id := inDegree[id] + 1];
      }
    }
  }

  lemma NodesMore(fs: seq<ResolvedFeature>, f: ResolvedFeature)
    ensures (set g | g in fs + [f] :: ID(g)) == (set g | g in fs :: ID(g)) + {ID(f)}
  {
    hide ID;
    assert f in fs + [f];
    forall g | g in fs ensures g in fs + [f] {}
  }

  method ZeroDegrees(features: seq<ResolvedFeature>) returns (inDegree: map<string, int>)
    ensures inDegree.Keys == GraphOf(features).nodes && forall n :: n in inDegree ==> inDegree[n] == 0
  {
    inDegree := map[];
    for i := 0 to |features|
      invariant inDegree.Keys == set f | f in features[..i] :: ID(f)
      invariant forall n :: n in inDegree ==> inDegree[n] == 0
    {
      assert features[..i + 1] == features[..i] + [features[i]];
      inDegree := inDegree[ID(features[i]) := 0];
      NodesMore(features[..i], features[i]);
      hide ID;
    }
    assert features[..|features|] == features;
  }

  lemma NoEdges(nodes: set<string>, inDegree: map<string, int>)
    requires inDegree.Keys == nodes && forall n :: n in inDegree ==> inDegree[n] == 0
    ensures Records(map[], inDegree, nodes, [])
  {
  }

  lemma GraphParts(fs: seq<ResolvedFeature>)
    ensures EdgesUpTo(fs, 0) == [] && EdgesUpTo(fs, |fs|) == GraphOf(fs).edges
    ensures forall i :: 0 <= i < |fs| ==> ID(fs[i]) in GraphOf(fs).nodes
  {
    hide FeatureEdges, ID;
  }

  lemma EdgesUpToNext(fs: seq<ResolvedFeature>, i: nat)
    requires i < |fs|
    ensures EdgesUpTo(fs, i + 1) == EdgesUpTo(fs, i) + FeatureEdges(fs, fs[i], |fs[i].meta.installsAfter|)
  {
    hide FeatureEdges;
  }

  method BuildGraph(features: seq<ResolvedFeature>, byID: map<string, ResolvedFeature>, byShortID: map<string, ResolvedFeature>)
    returns (adj: map<string, seq<string>>, inDegree: map<string, int>)
    requires Indexes(features, byID, byShortID)
    ensures Records(adj, inDegree, GraphOf(features).nodes, GraphOf(features).edges)
  {
    hide *;
    adj := map[];
    inDegree := ZeroDegrees(features);
    ghost var nodes := GraphOf(features).nodes;
    NoEdges(nodes, inDegree);
    GraphParts(features);
    for i := 0 to |features|
      invariant Records(adj, inDegree, nodes, EdgesUpTo(features, i))
    {
      EdgesUpToNext(features, i);
      adj, inDegree := AddEdges(features, features[i], byID, byShortID, nodes, EdgesUpTo(features, i), adj, inDegree);
    }
  }

  /** The nodes without blocking edges, collected from a map in any order. */
  method InitialQueue(inDegree: map<string, int>) returns (queue: seq<string>)
    ensures Distinct(queue) && forall n :: n in queue <==> n in inDegree && inDegree[n] == 0
  {
    queue := [];
    var keys := inDegree.Keys;
    while keys != {}
      invariant keys <= inDegree.Keys && Distinct(queue)
      invariant forall n :: n in queue <==> n in inDegree && n !in keys && inDegree[n] == 0
      decreases |keys|
    {
      var id :| id in keys;
      if inDegree[id] == 0 {
        queue := queue + [id];
      }
      keys := keys - {id};
    }
  }

  ghost predicate QueueIsReady(g: Graph, done: set<string>, queue: seq<string>) {
    Distinct(queue) && forall n :: n in queue <==> Ready(g, done, n)
  }

  /** The nodes already taken have no blocking edges left. */
  ghost predicate DoneReleased(g: Graph, done: set<string>) {
    forall x :: x in done ==> Pending(g.edges, done, x) == 0
  }

  lemma PendingShrinks(g: Graph, done: set<string>, id: string)
    requires DoneReleased(g, done) && Ready(g, done, id)
    ensures DoneReleased(g, done + {id})
  {
    forall x | x in done + {id} ensures Pending(g.edges, done + {id}, x) == 0 {
      PendingAfter(g.edges, done, id, x);
    }
  }

  /** Degrees after the first `j` targets of the node just taken have been counted off. */
  ghost predicate DegreesAt(g: Graph, done: set<string>, next: seq<string>, j: nat, degrees: map<string, int>)
    requires j <= |next|
  {
    degrees.Keys == g.nodes
    && forall n :: n in g.nodes ==> degrees[n] == Pending(g.edges, done, n) - multiset(next[..j])[n]
  }

  lemma PrefixCount(next: seq<string>, j: nat, n: string)
    requires j < |next|
    ensures multiset(next[..j + 1])[n] == multiset(next[..j])[n] + if n == next[j] then 1 else 0
    ensures multiset(next[..j + 1])[n] <= multiset(next)[n]
  {
    assert next[..j + 1] == next[..j] + [next[j]];
    assert next == next[..j + 1] + next[j + 1..];
  }

  lemma ReleaseStep(g: Graph, done: set<string>, id: string, next: seq<string>, j: nat, degrees: map<string, int>)
    requires id !in done && j < |next| && multiset(next) == multiset(Targets(g.edges, id))
    requires next[j] in g.nodes && DegreesAt(g, done, next, j, degrees)
    ensures degrees[next[j]] >= 1
    ensures DegreesAt(g, done, next, j + 1, degrees[next[j] := degrees[next[j]] - 1])
  {
    PrefixCount(next, j, next[j]);
    PendingAfter(g.edges, done, id, next[j]);
    hide Pending, Targets;
    forall n | n in g.nodes
      ensures degrees[next[j] := degrees[next[j]] - 1][n] == Pending(g.edges, done, n) - multiset(next[..j + 1])[n]
    {
      PrefixCount(next, j, n);
    }
  }

  ghost predicate QueueAt(g: Graph, done: set<string>, degrees: map<string, int>, queue: seq<string>)
    requires degrees.Keys == g.nodes
  {
    Distinct(queue) && forall n :: n in queue <==> n in g.nodes && n !in done && degrees[n] == 0
  }

  lemma ReleaseStart(g: Graph, done: set<string>, id: string, inDegree: map<string, int>, queue: seq<string>)
    requires DegreeMatches(inDegree, g, done) && Ready(g, done, id)
    requires id !in queue && QueueIsReady(g, done, queue + [id])
    ensures QueueAt(g, done + {id}, inDegree, queue)
  {
    forall n ensures n in queue <==> n in g.nodes && n !in done + {id} && inDegree[n] == 0 {
      assert n in queue + [id] <==> n in queue || n == id;
    }
    forall i, j | 0 <= i < j < |queue| ensures queue[i] != queue[j] {
      assert (queue + [id])[i] != (queue + [id])[j];
    }
  }

  lemma DegreesStart(g: Graph, done: set<string>, next: seq<string>, inDegree: map<string, int>)
    requires DegreeMatches(inDegree, g, done)
    ensures DegreesAt(g, done, next, 0, inDegree)
  {
    assert next[..0] == [];
  }

  lemma ReleaseEnd(g: Graph, done: set<string>, id: string, next: seq<string>, degrees: map<string, int>)
    requires id !in done && multiset(next) == multiset(Targets(g.edges, id))
    requires DegreesAt(g, done, next, |next|, degrees)
    ensures DegreeMatches(degrees, g, done + {id})
  {
    assert next[..|next|] == next;
    forall n | n in g.nodes ensures degrees[n] == Pending(g.edges, done + {id}, n) {
      PendingAfter(g.edges, done, id, n);
    }
  }

  /** Nodes already taken are no longer counted down. */
  lemma DoneNotReached(g: Graph, done: set<string>, id: string, b: string)
    requires DoneReleased(g, done) && Ready(g, done, id) && b in done + {id}
    ensures b !in Targets(g.edges, id)
  {
    PendingAfter(g.edges, done, id, b);
    assert multiset(Targets(g.edges, id))[b] == 0;
  }

  /** The inner loop: takes `id` out of its successors' degrees and queues the released ones. */
  method Release(ghost g: Graph, ghost done: set<string>, id: string, next: seq<string>, inDegree: map<string, int>, queue: seq<string>)
    returns (degrees: map<string, int>, released: seq<string>)
    requires g.Valid() && DegreeMatches(inDegree, g, done) && DoneReleased(g, done) && Ready(g, done, id)
    requires multiset(next) == multiset(Targets(g.edges, id))
    requires id !in queue && QueueIsReady(g, done, queue + [id])
    ensures DegreeMatches(degrees, g, done + {id})
    ensures QueueIsReady(g, done + {id}, released)
  {
    degrees, released := inDegree, queue;
    ReleaseStart(g, done, id, inDegree, queue);
    TargetsInGraph(g, done, id, next);
    DegreesStart(g, done, next, inDegree);
    hide Graph.Valid, Pending, Targets, DoneReleased, Ready, DegreesAt, DegreeMatches, QueueIsReady, QueueAt;
    for j := 0 to |next|
      invariant degrees.Keys == g.nodes
      invariant DegreesAt(g, done, next, j, degrees)
      invariant QueueAt(g, done + {id}, degrees, released)
    {
      var neighbor := next[j];
      ReleaseStep(g, done, id, next, j, degrees);
      QueueStep(g, done + {id}, degrees, released, neighbor);
      degrees := degrees[neighbor := degrees[neighbor] - 1];
      if degrees[neighbor] == 0 {
        released := released + [neighbor];
      }
    }
    ReleaseEnd(g, done, id, next, degrees);
    QueueAtIsReady(g, done + {id}, degrees, released);
  }

  /** Counting down one successor, and queueing it when it is released. */
  lemma QueueStep(g: Graph, done: set<string>, degrees: map<string, int>, queue: seq<string>, b: string)
    requires degrees.Keys == g.nodes && QueueAt(g, done, degrees, queue)
    requires b in g.nodes - done && degrees[b] >= 1
    ensures QueueAt(g, done, degrees[b := degrees[b] - 1], if degrees[b] == 1 then queue + [b] else queue)
  {
  }

  lemma QueueAtIsReady(g: Graph, done: set<string>, degrees: map<string, int>, queue: seq<string>)
    requires DegreeMatches(degrees, g, done) && QueueAt(g, done, degrees, queue)
    ensures QueueIsReady(g, done, queue)
  {
  }

  lemma TargetsInGraph(g: Graph, done: set<string>, id: string, next: seq<string>)
    requires g.Valid() && DoneReleased(g, done) && Ready(g, done, id)
    requires multiset(next) == multiset(Targets(g.edges, id))
    ensures id !in done
    ensures forall k :: 0 <= k < |next| ==> next[k] in g.nodes && next[k] !in done + {id}
  {
    TargetsAreEdges(g.edges, id);
    SameSetOf(next, Targets(g.edges, id));
    forall k | 0 <= k < |next| ensures next[k] in g.nodes && next[k] !in done + {id} {
      assert next[k] in SetOf(next);
      assert next[k] in Targets(g.edges, id);
      assert (id, next[k]) in g.edges;
      if next[k] in done + {id} { DoneNotReached(g, done, id, next[k]); }
    }
  }

  /** Taking the ready node `id`. */
  lemma TakeNode(g: Graph, ids: seq<string>, id: string)
    requires GreedyRun(g, ids) && LeastReady(g, SetOf(ids), id) && DoneReleased(g, SetOf(ids))
    ensures GreedyRun(g, ids + [id]) && DoneReleased(g, SetOf(ids + [id]))
    ensures SetOf(ids + [id]) == SetOf(ids) + {id}
    ensures |ids| < |g.nodes|
  {
    GreedyExtend(g, ids, id);
    PendingShrinks(g, SetOf(ids), id);
    assert SetOf(ids + [id]) == SetOf(ids) + {id};
    GreedyDistinct(g, ids + [id]);
    SubsetSize(SetOf(ids + [id]), g.nodes);
  }

  /** Sorting the queue. */
  method SortQueue(ghost g: Graph, ghost done: set<string>, queue: seq<string>) returns (sorted: seq<string>)
    requires QueueIsReady(g, done, queue)
    ensures Sorted(sorted) && QueueIsReady(g, done, sorted)
  {
    sorted := SortStrings(queue);
    DistinctPermutation(queue, sorted);
  }

  /** The outer loop of Kahn's algorithm. */
  method Kahn(ghost g: Graph, byID: map<string, ResolvedFeature>, adj: map<string, seq<string>>, inDegree: map<string, int>)
    returns (result: seq<ResolvedFeature>)
    requires g.Valid() && byID.Keys == g.nodes && AdjMatches(adj, g.edges) && DegreeMatches(inDegree, g, {})
    requires forall id :: id in byID ==> ID(byID[id]) == id
    ensures GreedyRun(g, IDs(result)) && Stuck(g, IDs(result))
    ensures forall f :: f in result ==> f in byID.Values
  {
    var degrees := inDegree;
    var queue := InitialQueue(inDegree);
    queue := SortQueue(g, {}, queue);
    result := [];
    ghost var ids: seq<string> := [];
    assert SetOf(ids) == {} && IDs(result) == ids;
    assert DoneReleased(g, {});
    hide *;
    while |queue| > 0
      invariant GreedyRun(g, ids) && DoneReleased(g, SetOf(ids))
      invariant IDs(result) == ids && forall f :: f in result ==> f in byID.Values
      invariant DegreeMatches(degrees, g, SetOf(ids))
      invariant Sorted(queue) && QueueIsReady(g, SetOf(ids), queue)
      decreases |g.nodes| - |ids|
    {
      var id := queue[0];
      ghost var done := SetOf(ids);
      FrontIsLeast(g, done, queue);
      TakeNode(g, ids, id);
      IDsMore(result, byID[id]);
      result := result + [byID[id]];
      var next := SortStrings(Adjacent(adj, id));
      degrees, queue := Release(g, done, id, next, degrees, queue[1..]);
      ids := ids + [id];
      queue := SortQueue(g, done + {id}, queue);
    }
    EmptyQueueStuck(g, ids, queue);
  }

  lemma IDsMore(fs: seq<ResolvedFeature>, f: ResolvedFeature)
    ensures IDs(fs + [f]) == IDs(fs) + [ID(f)]
  {
    hide ID;
  }

  lemma EmptyQueueStuck(g: Graph, ids: seq<string>, queue: seq<string>)
    requires QueueIsReady(g, SetOf(ids), queue) && queue == []
    ensures Stuck(g, ids)
  {
  }

  lemma FrontIsLeast(g: Graph, done: set<string>, queue: seq<string>)
    requires |queue| > 0 && Sorted(queue) && QueueIsReady(g, done, queue)
    ensures LeastReady(g, done, queue[0]) && Ready(g, done, queue[0])
    ensures queue[0] !in queue[1..] && QueueIsReady(g, done, queue[1..] + [queue[0]])
  {
    assert queue[0] in queue;
    forall m | Ready(g, done, m) ensures StrLeq(queue[0], m) {
      assert m in queue;
      var k :| 0 <= k < |queue| && queue[k] == m;
      StrLeqReflexive(m);
    }
    var rotated := queue[1..] + [queue[0]];
    assert queue == [queue[0]] + queue[1..];
    assert multiset(rotated) == multiset(queue);
    DistinctPermutation(queue, rotated);
    forall k | 0 <= k < |queue| - 1 ensures queue[1..][k] != queue[0] { assert queue[1..][k] == queue[k + 1]; }
  }

  /** `Ordered`. */
  method Ordered(features: seq<ResolvedFeature>, overrideOrder: seq<string>) returns (r: OrderResult)
    ensures OrderSpec(features, overrideOrder, r)
  {
    if |overrideOrder| > 0 {
      return Failure(OverrideUnsupported);
    }
    var byID, byShortID := BuildIndex(features);
    var missing := CheckDependsOn(features, byID, byShortID);
    if missing.Some? {
      return Failure(MissingDependency(missing.value.0, missing.value.1));
    }
    var adj, inDegree := BuildGraph(features, byID, byShortID);
    ghost var g := GraphOf(features);
    GraphMeaning(features);
    IndexFacts(features, byID, byShortID);
    var result := Kahn(g, byID, adj, inDegree);
    ghost var ids := IDs(result);
    RunSize(features, ids);
    if |ids| == |features| {
      RunIsPermutation(features, ids, result);
    }
    hide GraphOf, IDs, Acyclic, GreedyRun, Stuck, IsLeastExtension, Distinct, ByID, ByShortID, DependsResolvable;
    if |result| != |features| {
      return Failure(CircularInstallsAfter);
    }
    return Success(result);
  }

  // ---------------------------------------------------------------------
  // From the run of node IDs back to the features

  lemma NodesOf(fs: seq<ResolvedFeature>)
    ensures GraphOf(fs).nodes == SetOf(IDs(fs))
    ensures |GraphOf(fs).nodes| <= |fs|
    ensures |GraphOf(fs).nodes| == |fs| <==> Distinct(IDs(fs))
  {
    var ids := IDs(fs);
    forall n ensures n in GraphOf(fs).nodes <==> n in SetOf(ids) {
      if n in GraphOf(fs).nodes {
        var f :| f in fs && ID(f) == n;
        var k :| 0 <= k < |fs| && fs[k] == f;
        assert ids[k] == n;
      }
      if n in SetOf(ids) {
        var k :| 0 <= k < |ids| && ids[k] == n;
        assert fs[k] in fs;
      }
    }
    SetOfBound(ids);
    if Distinct(ids) { DistinctCardinality(ids); }
    if |SetOf(ids)| == |ids| { FullCardinalityDistinct(ids); }
  }

  /** How long a finished run is. */
  lemma RunSize(fs: seq<ResolvedFeature>, ids: seq<string>)
    requires GreedyRun(GraphOf(fs), ids) && Stuck(GraphOf(fs), ids)
    ensures |ids| == |fs| <==> Distinct(IDs(fs)) && Acyclic(GraphOf(fs))
    ensures |ids| == |fs| ==> IsLeastExtension(GraphOf(fs), ids)
  {
    var g := GraphOf(fs);
    GraphMeaning(fs);
    NodesOf(fs);
    GreedyDistinct(g, ids);
    SubsetSize(SetOf(ids), g.nodes);
    GreedyOutcome(g, ids);
    hide GraphOf, IDs, Acyclic, GreedyRun, Stuck, IsLeastExtension, SetOf, Distinct;
  }

  /** A run as long as the list of features lists all of them. */
  lemma RunIsPermutation(fs: seq<ResolvedFeature>, ids: seq<string>, out: seq<ResolvedFeature>)
    requires GreedyRun(GraphOf(fs), ids) && |ids| == |fs| && Distinct(IDs(fs))
    requires IDs(out) == ids && forall f :: f in out ==> f in fs
    ensures multiset(out) == multiset(fs)
  {
    GreedyDistinct(GraphOf(fs), ids);
    NodesOf(fs);
    SameSize(SetOf(ids), GraphOf(fs).nodes);
    hide GreedyRun, GraphOf, ID;
    OutIsPermutation(fs, out);
  }

  /** Two lists of features with distinct IDs, the same IDs, and members of one in the other. */
  lemma OutIsPermutation(fs: seq<ResolvedFeature>, out: seq<ResolvedFeature>)
    requires Distinct(IDs(fs)) && Distinct(IDs(out)) && SetOf(IDs(fs)) == SetOf(IDs(out))
    requires forall f :: f in out ==> f in fs
    ensures multiset(out) == multiset(fs)
  {
    DistinctByID(fs);
    DistinctByID(out);
    forall f ensures multiset(out)[f] == multiset(fs)[f] {
      if f in fs {
        var k :| 0 <= k < |fs| && fs[k] == f;
        assert IDs(fs)[k] in SetOf(IDs(out));
        var j :| 0 <= j < |out| && IDs(out)[j] == ID(f);
        assert out[j] in fs;
        var i :| 0 <= i < |fs| && fs[i] == out[j];
        assert IDs(fs)[i] == IDs(fs)[k];
        assert i == k;
      }
      DistinctCount(fs, f);
      DistinctCount(out, f);
    }
  }

  /** Features with distinct IDs are distinct. */
  lemma DistinctByID(fs: seq<ResolvedFeature>)
    requires Distinct(IDs(fs))
    ensures Distinct(fs)
  {
    hide ID;
    forall i, j | 0 <= i < j < |fs| ensures fs[i] != fs[j] {
      assert IDs(fs)[i] != IDs(fs)[j];
    }
  }
}
