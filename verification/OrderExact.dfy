/**
 When the input order of `Ordered` can be seen: the exact condition on canonical
 and short IDs, and a counterexample for every list that does not meet it.
 */
module OrderExact {
  import opened Wrappers
  import opened Collections
  import opened Topo
  import opened FeatureData
  import opened FeatureIds
  import opened FeatureOrder
  import opened OrderTheorems

  /** The same references and short IDs, with any other metadata. */
  ghost predicate SameShape(fs: seq<ResolvedFeature>, hs: seq<ResolvedFeature>) {
    |fs| == |hs| && forall i :: 0 <= i < |fs| ==> hs[i].ref == fs[i].ref && hs[i].meta.id == fs[i].meta.id
  }

  /** The features at `i` and `j` share a short ID that is nobody's canonical ID. */
  ghost predicate Share(fs: seq<ResolvedFeature>, i: nat, j: nat) {
    && i < |fs| && j < |fs| && ID(fs[i]) != ID(fs[j])
    && fs[i].meta.id == fs[j].meta.id != ""
    && fs[i].meta.id !in IDs(fs)
  }

  /** Features with distinct canonical IDs, two of which share such a short ID. */
  ghost predicate Leaky(fs: seq<ResolvedFeature>) {
    Distinct(IDs(fs)) && exists i, j :: Share(fs, i, j)
  }

  /** `a` and `b` are orders of the same features, with outcomes `r` and `s`. */
  ghost predicate TwoOutcomes(hs: seq<ResolvedFeature>, a: seq<ResolvedFeature>, r: OrderResult, b: seq<ResolvedFeature>, s: OrderResult) {
    && multiset(a) == multiset(hs) == multiset(b)
    && OrderSpec(a, [], r) && OrderSpec(b, [], s)
  }

  // ---------------------------------------------------------------------
  // Every input has a permitted outcome

  /** The features of a run, found by ID. */
  ghost function Found(fs: seq<ResolvedFeature>, ids: seq<string>): (out: seq<ResolvedFeature>)
    requires forall k :: k in ids ==> k in ByID(fs)
    ensures IDs(out) == ids && forall f :: f in out ==> f in fs
  {
    var out := seq(|ids|, i requires 0 <= i < |ids| => ByID(fs)[ids[i]]);
    assert forall i :: 0 <= i < |ids| ==> ids[i] in ids && out[i] == ByID(fs)[ids[i]] && ID(out[i]) == ids[i];
    assert IDs(out) == ids;
    out
  }

  lemma RunIsIndexed(fs: seq<ResolvedFeature>, ids: seq<string>)
    requires GreedyRun(GraphOf(fs), ids)
    ensures forall k :: k in ids ==> k in ByID(fs)
  {
    GreedyDistinct(GraphOf(fs), ids);
    hide GreedyRun, ID;
    forall k | k in ids ensures k in ByID(fs) {
      assert k in SetOf(ids);
      var f :| f in fs && ID(f) == k;
    }
  }

  lemma RunSucceeds(fs: seq<ResolvedFeature>, ids: seq<string>) returns (r: OrderResult)
    requires GreedyRun(GraphOf(fs), ids) && Stuck(GraphOf(fs), ids)
    requires DependsResolvable(fs) && Distinct(IDs(fs)) && Acyclic(GraphOf(fs))
    ensures OrderSpec(fs, [], r)
  {
    RunSize(fs, ids);
    RunIsIndexed(fs, ids);
    var out := Found(fs, ids);
    RunIsPermutation(fs, ids, out);
    r := Success(out);
    hide GraphOf, IDs, Acyclic, GreedyRun, Stuck, IsLeastExtension, DependsResolvable;
  }

  /** The specification permits some outcome for every list of features. */
  lemma OutcomeExists(fs: seq<ResolvedFeature>) returns (r: OrderResult)
    ensures OrderSpec(fs, [], r)
  {
    hide Acyclic, GraphOf, Lookup, Distinct, IDs;
    if !DependsResolvable(fs) {
      var f :| f in fs && !KeysResolvable(fs, f.meta.dependsOn.Keys);
      var d :| d in f.meta.dependsOn.Keys && Lookup(fs, d).None?;
      var i :| 0 <= i < |fs| && fs[i] == f;
      assert DependedOn(fs, f.meta.id, d);
      r := Failure(MissingDependency(f.meta.id, d));
    } else if Distinct(IDs(fs)) && Acyclic(GraphOf(fs)) {
      assert GreedyRun(GraphOf(fs), []);
      var ids := CompleteGreedy(GraphOf(fs), []);
      r := RunSucceeds(fs, ids);
    } else {
      r := Failure(CircularInstallsAfter);
    }
  }

  // ---------------------------------------------------------------------
  // Without such a pair the order cannot be seen

  lemma ShapeIDs(fs: seq<ResolvedFeature>, hs: seq<ResolvedFeature>)
    requires SameShape(fs, hs)
    ensures IDs(hs) == IDs(fs)
  {
  }

  lemma NoPairUnambiguous(fs: seq<ResolvedFeature>, hs: seq<ResolvedFeature>)
    requires SameShape(fs, hs) && !exists i, j :: Share(fs, i, j)
    ensures Unambiguous(hs)
  {
    ShapeIDs(fs, hs);
    hide ID, StripVersion;
    forall f: ResolvedFeature, t | f in hs && t in f.meta.installsAfter ensures !AmbiguousTarget(hs, t) {
      var short := StripVersion(t);
      forall g, h | g in hs && h in hs && g.meta.id == h.meta.id == short != "" && ID(g) != ID(h) ensures short in IDs(hs) {
        var i: nat :| i < |hs| && hs[i] == g;
        var j: nat :| j < |hs| && hs[j] == h;
        assert !Share(fs, i, j);
        assert IDs(fs)[i] == ID(hs[i]) && IDs(fs)[j] == ID(hs[j]);
      }
      forall k | 0 <= k < |hs| ensures IDs(hs)[k] == ID(hs[k]) && hs[k] in hs {}
    }
  }

  /** With a repeated canonical ID no order can succeed. */
  lemma RepeatedIDs(hs: seq<ResolvedFeature>, a: seq<ResolvedFeature>, r: OrderResult, b: seq<ResolvedFeature>, s: OrderResult)
    requires TwoOutcomes(hs, a, r, b, s) && !Distinct(IDs(hs))
    ensures SameOutcome(r, s)
  {
    SucceedsIff(a, [], r);
    SucceedsIff(b, [], s);
    SameIDs(hs, a);
    SameIDs(hs, b);
    PermutationMembers(a, b);
    PermutationMembers(b, a);
    hide *;
    if DependsResolvable(a) { DependsInvariant(a, b); }
    if DependsResolvable(b) { DependsInvariant(b, a); }
  }

  lemma UnambiguousOrders(hs: seq<ResolvedFeature>, a: seq<ResolvedFeature>, r: OrderResult, b: seq<ResolvedFeature>, s: OrderResult)
    requires TwoOutcomes(hs, a, r, b, s) && Unambiguous(hs)
    ensures SameOutcome(r, s)
  {
    PermutationMembers(hs, a);
    UnambiguousInvariant(hs, a);
    hide OrderSpec, Unambiguous, SameOutcome;
    InputOrderIrrelevant(a, b, [], r, s);
  }

  // ---------------------------------------------------------------------
  // With one it can

  /** `f` with no dependencies, and with the single reference `t` if its ID is `x`. */
  function Wire(f: ResolvedFeature, x: string, t: string): ResolvedFeature {
    f.(meta := f.meta.(dependsOn := map[], installsAfter := if ID(f) == x then [t] else []))
  }

  function Wired(fs: seq<ResolvedFeature>, x: string, t: string): (hs: seq<ResolvedFeature>)
    ensures |hs| == |fs| && forall i :: 0 <= i < |fs| ==> hs[i] == Wire(fs[i], x, t)
  {
    seq(|fs|, i requires 0 <= i < |fs| => Wire(fs[i], x, t))
  }

  lemma WiredShape(fs: seq<ResolvedFeature>, x: string, t: string)
    ensures SameShape(fs, Wired(fs, x, t)) && IDs(Wired(fs, x, t)) == IDs(fs)
  {
  }

  /** `fs` with the feature at `k` moved to the end. */
  function WithLast<T>(fs: seq<T>, k: nat): seq<T>
    requires k < |fs|
  {
    fs[..k] + fs[k + 1..] + [fs[k]]
  }

  lemma WithLastPermutes<T>(fs: seq<T>, k: nat)
    requires k < |fs|
    ensures multiset(WithLast(fs, k)) == multiset(fs)
  {
    WithoutAt(fs, k);
  }

  /** A reference with a version tag finds the last feature with its short ID. */
  lemma LastIsFound(a: seq<ResolvedFeature>, short: string, t: string)
    requires a != [] && a[|a| - 1].meta.id == short != "" && StripVersion(t) == short && short !in IDs(a)
    ensures Lookup(a, t) == Some(a[|a| - 1])
  {
    hide StripVersion, ID;
    assert forall f :: f in a ==> ID(f) != short by {
      forall f | f in a ensures ID(f) != short {
        var k :| 0 <= k < |a| && a[k] == f;
        assert IDs(a)[k] == ID(f);
      }
    }
    assert short !in ByID(a);
  }

  /** Only the feature with the ID `x` has a reference, and nothing depends on anything. */
  lemma WiredMembers(fs: seq<ResolvedFeature>, x: string, t: string, a: seq<ResolvedFeature>, f: ResolvedFeature)
    requires multiset(a) == multiset(Wired(fs, x, t)) && f in a
    ensures f.meta.dependsOn == map[] && f.meta.installsAfter == if ID(f) == x then [t] else []
  {
    PermutationMembers(Wired(fs, x, t), a);
    var k :| 0 <= k < |fs| && Wired(fs, x, t)[k] == f;
  }

  lemma WiredIDs(fs: seq<ResolvedFeature>, x: string, t: string, a: seq<ResolvedFeature>)
    requires multiset(a) == multiset(Wired(fs, x, t))
    ensures SetOf(IDs(a)) == SetOf(IDs(fs)) && (Distinct(IDs(a)) <==> Distinct(IDs(fs)))
    ensures DependsResolvable(a)
  {
    WiredShape(fs, x, t);
    SameIDs(a, Wired(fs, x, t));
    SameIDs(Wired(fs, x, t), a);
    forall f | f in a ensures f.meta.dependsOn == map[] { WiredMembers(fs, x, t, a, f); }
    NothingNeeded(a);
  }

  lemma OneWithID(a: seq<ResolvedFeature>, f: ResolvedFeature, g: ResolvedFeature)
    requires Distinct(IDs(a)) && f in a && g in a && ID(f) == ID(g)
    ensures f == g
  {
    hide ID;
    var i :| 0 <= i < |a| && a[i] == f;
    var j :| 0 <= j < |a| && a[j] == g;
    assert IDs(a)[i] == IDs(a)[j];
  }

  /** In an order of the wired features with another carrier of the short ID at the end, the only edge leads from that one to `x`. */
  lemma WiredEdge(fs: seq<ResolvedFeature>, x: string, t: string, a: seq<ResolvedFeature>)
    requires Distinct(IDs(fs)) && x in IDs(fs) && multiset(a) == multiset(Wired(fs, x, t)) && a != []
    requires a[|a| - 1].meta.id == StripVersion(t) != "" && StripVersion(t) !in IDs(fs)
    ensures forall y, z :: InstallsAfter(a, y, z) <==> y == ID(a[|a| - 1]) && z == x
  {
    WiredIDs(fs, x, t, a);
    hide StripVersion, ID, Lookup, InstallsAfter, Wired, DependsResolvable, Distinct;
    assert x in SetOf(IDs(a));
    var k :| 0 <= k < |a| && IDs(a)[k] == x;
    forall g | g in a && g != a[k] ensures g.meta.installsAfter == [] {
      WiredMembers(fs, x, t, a, g);
      if ID(g) == x { OneWithID(a, a[k], g); }
    }
    WiredMembers(fs, x, t, a, a[k]);
    assert StripVersion(t) !in SetOf(IDs(a));
    LastIsFound(a, StripVersion(t), t);
    OnlyEdge(a, a[k], a[|a| - 1], t);
  }

  /** The outcomes of the wired features, by which of them is last. */
  lemma WiredOutcome(fs: seq<ResolvedFeature>, x: string, t: string, a: seq<ResolvedFeature>, r: OrderResult)
    requires Distinct(IDs(fs)) && x in IDs(fs) && multiset(a) == multiset(Wired(fs, x, t)) && a != []
    requires a[|a| - 1].meta.id == StripVersion(t) != "" && StripVersion(t) !in IDs(fs)
    requires OrderSpec(a, [], r)
    ensures r.Success? <==> ID(a[|a| - 1]) != x
  {
    WiredEdge(fs, x, t, a);
    WiredIDs(fs, x, t, a);
    OneEdgeAcyclic(a, ID(a[|a| - 1]), x);
    SucceedsIff(a, [], r);
    hide *;
  }

  /** The features with a reference from the one at `i` to its own short ID, with a version tag. */
  function SelfNamed(fs: seq<ResolvedFeature>, i: nat): (hs: seq<ResolvedFeature>)
    requires i < |fs|
    ensures |hs| == |fs|
  {
    Wired(fs, ID(fs[i]), fs[i].meta.id + ":x")
  }

  /** Every pair that shares a short ID has metadata and orders for which one order succeeds and the other fails. */
  lemma SharedShortIDLeaks(fs: seq<ResolvedFeature>, i: nat, j: nat)
    returns (hs: seq<ResolvedFeature>, a: seq<ResolvedFeature>, r: OrderResult, b: seq<ResolvedFeature>, s: OrderResult)
    requires Distinct(IDs(fs)) && Share(fs, i, j)
    ensures hs == SelfNamed(fs, i) && a == WithLast(hs, j) && b == WithLast(hs, i)
    ensures SameShape(fs, hs) && TwoOutcomes(hs, a, r, b, s)
    ensures r.Success? && s == Failure(CircularInstallsAfter)
  {
    var x, short := ID(fs[i]), fs[i].meta.id;
    var t := short + ":x";
    TagRoundTrip(short, "x");
    assert t == short + ":" + "x";
    assert IDs(fs)[i] == x;
    hs := SelfNamed(fs, i);
    WiredShape(fs, x, t);
    a, b := WithLast(hs, j), WithLast(hs, i);
    WithLastPermutes(hs, j);
    WithLastPermutes(hs, i);
    r := OutcomeExists(a);
    s := OutcomeExists(b);
    WiredIDs(fs, x, t, b);
    SucceedsIff(b, [], s);
    hide OrderSpec, StripVersion, CanonicalID, Distinct, Acyclic, GraphOf, DependsResolvable;
    WiredOutcome(fs, x, t, a, r);
    WiredOutcome(fs, x, t, b, s);
  }

  /**
   The input order can never be seen, whatever the other metadata, exactly when the
   features repeat a canonical ID or no two of them share a short ID that is
   nobody's canonical ID.
   */
  lemma OrderInvisibleIff(fs: seq<ResolvedFeature>)
    ensures !Leaky(fs)
       <==> forall hs, a, r, b, s :: SameShape(fs, hs) && TwoOutcomes(hs, a, r, b, s) ==> SameOutcome(r, s)
  {
    if Leaky(fs) {
      hide TwoOutcomes, SameShape;
      var i, j :| Share(fs, i, j);
      var hs, a, r, b, s := SharedShortIDLeaks(fs, i, j);
    } else {
      forall hs, a, r, b, s | SameShape(fs, hs) && TwoOutcomes(hs, a, r, b, s) ensures SameOutcome(r, s) {
        NotLeakyInvisible(fs, hs, a, r, b, s);
      }
    }
  }

  lemma NotLeakyInvisible(fs: seq<ResolvedFeature>, hs: seq<ResolvedFeature>,
                          a: seq<ResolvedFeature>, r: OrderResult, b: seq<ResolvedFeature>, s: OrderResult)
    requires !Leaky(fs) && SameShape(fs, hs) && TwoOutcomes(hs, a, r, b, s)
    ensures SameOutcome(r, s)
  {
    ShapeIDs(fs, hs);
    hide TwoOutcomes, Share, SameOutcome, SameShape;
    if Distinct(IDs(fs)) {
      NoPairUnambiguous(fs, hs);
      UnambiguousOrders(hs, a, r, b, s);
    } else {
      RepeatedIDs(hs, a, r, b, s);
    }
  }
}
