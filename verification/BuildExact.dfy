/**
 When the order in which Go visits the feature map can be seen in a build: the
 condition of `OrderExact`, carried over to configurations.
 */
module BuildExact {
  import opened Wrappers
  import opened Collections
  import opened FeatureData
  import opened FeatureIds
  import opened FeatureOrder
  import opened OrderTheorems
  import opened OrderExact
  import opened FeatureTag
  import opened Lockfile
  import opened FeatureBuild

  /** Two sources give a configuration features with the same references and short IDs, and any other metadata. */
  ghost predicate SameShapes(cfg: map<string, Raw>, store: Store, store': Store) {
    forall id :: id in cfg ==>
      var f, g := FeatureOf(cfg, store, id), FeatureOf(cfg, store', id);
      if f.Some? then g.Some? && g.value.ref == f.value.ref && g.value.meta.id == f.value.meta.id else g.None?
  }

  ghost predicate TwoBuilds(cfg: map<string, Raw>, store: Store, base: string, enc: Encoder, upgrade: bool,
                            r: BuildResult, s: BuildResult)
  {
    BuildSpec(cfg, store, base, enc, upgrade, r) && BuildSpec(cfg, store, base, enc, upgrade, s)
  }

  /** Every entry resolves, canonical IDs are distinct, and two features share a short ID that is nobody's canonical ID. */
  ghost predicate LeakyConfig(cfg: map<string, Raw>, store: Store) {
    exists order, fs :: Lists(cfg, store, order, fs) && Leaky(fs)
  }

  /** The same listing from the other source. */
  lemma OtherSource(cfg: map<string, Raw>, store: Store, store': Store, order: seq<string>, hs: seq<ResolvedFeature>)
    returns (fs: seq<ResolvedFeature>)
    requires SameShapes(cfg, store, store') && Lists(cfg, store', order, hs)
    ensures Lists(cfg, store, order, fs) && SameShape(fs, hs)
  {
    hide FeatureOf;
    forall i | 0 <= i < |order| ensures FeatureOf(cfg, store, order[i]).Some? {
      assert order[i] in SetOf(order);
      assert FeatureOf(cfg, store', order[i]) == Some(hs[i]);
    }
    fs := seq(|order|, i requires 0 <= i < |order| => FeatureOf(cfg, store, order[i]).value);
    forall i | 0 <= i < |order| ensures hs[i].ref == fs[i].ref && hs[i].meta.id == fs[i].meta.id {
      assert order[i] in SetOf(order);
      assert FeatureOf(cfg, store', order[i]) == Some(hs[i]);
    }
  }

  lemma NotLeakyHides(cfg: map<string, Raw>, store: Store, store': Store)
    requires !LeakyConfig(cfg, store) && SameShapes(cfg, store, store')
    ensures OrderHidden(cfg, store')
  {
    hide OrderSpec, Lists, Leaky, SameOutcome, SameShapes, SameShape;
    forall o, hs, x, p, gs, y | Lists(cfg, store', o, hs) && OrderSpec(hs, [], x) && Lists(cfg, store', p, gs) && OrderSpec(gs, [], y)
      ensures SameOutcome(x, y)
    {
      var fs := OtherSource(cfg, store, store', o, hs);
      ListsPermute(cfg, store', o, hs, p, gs);
      NotLeakyInvisible(fs, hs, hs, x, gs, y);
    }
  }

  /** The source with the metadata that `Wire` gives its features. */
  function WiredStore(store: Store, x: string, t: string): Store {
    ref =>
      match store(ref)
      case None => None
      case Some(fetched) =>
        Some(fetched.(meta := fetched.meta.(dependsOn := map[], installsAfter := if CanonicalID(ref) == x then [t] else [])))
  }

  lemma WiredFeature(cfg: map<string, Raw>, store: Store, x: string, t: string, id: string)
    ensures var f, g := FeatureOf(cfg, store, id), FeatureOf(cfg, WiredStore(store, x, t), id);
            if f.Some? then g == Some(Wire(f.value, x, t)) else g.None?
  {
    hide Parsed, StripVersion;
  }

  lemma WiredSource(cfg: map<string, Raw>, store: Store, x: string, t: string, order: seq<string>, fs: seq<ResolvedFeature>)
    requires Lists(cfg, store, order, fs)
    ensures SameShapes(cfg, store, WiredStore(store, x, t)) && Lists(cfg, WiredStore(store, x, t), order, Wired(fs, x, t))
  {
    forall id ensures var f, g := FeatureOf(cfg, store, id), FeatureOf(cfg, WiredStore(store, x, t), id);
                      if f.Some? then g == Some(Wire(f.value, x, t)) else g.None?
    {
      WiredFeature(cfg, store, x, t, id);
    }
    hide FeatureOf, CanonicalID, WiredStore;
  }

  /** The keys visited in the order with the one at `k` last. */
  lemma ListsWithLast(cfg: map<string, Raw>, store: Store, order: seq<string>, fs: seq<ResolvedFeature>, k: nat)
    requires Lists(cfg, store, order, fs) && k < |order|
    ensures Lists(cfg, store, WithLast(order, k), WithLast(fs, k))
  {
    WithLastPermutes(order, k);
    DistinctPermutation(order, WithLast(order, k));
    SameSetOf(order, WithLast(order, k));
    StandForLength(cfg, store, order, fs);
    StandForWithout(cfg, store, order, fs, k);
    hide StandFor, Distinct;
    assert StandFor(cfg, store, WithLast(order, k), WithLast(fs, k)) by {
      StandForMore(cfg, store, order, fs, k, order[..k] + order[k + 1..], fs[..k] + fs[k + 1..]);
    }
  }

  lemma StandForMore(cfg: map<string, Raw>, store: Store, order: seq<string>, fs: seq<ResolvedFeature>, k: nat,
                     some: seq<string>, gs: seq<ResolvedFeature>)
    requires StandFor(cfg, store, order, fs) && k < |order| && StandFor(cfg, store, some, gs)
    ensures StandFor(cfg, store, some + [order[k]], gs + [fs[k]])
  {
    hide FeatureOf;
  }

  lemma FailureIsBuild(cfg: map<string, Raw>, store: Store, base: string, enc: Encoder, upgrade: bool,
                       order: seq<string>, fs: seq<ResolvedFeature>, e: OrderError)
    requires Lists(cfg, store, order, fs) && OrderSpec(fs, [], Failure(e))
    ensures BuildSpec(cfg, store, base, enc, upgrade, Failure(Unordered(e)))
  {
    hide Lists, OrderSpec;
  }

  lemma SuccessIsBuild(cfg: map<string, Raw>, store: Store, base: string, enc: Encoder, upgrade: bool,
                       order: seq<string>, fs: seq<ResolvedFeature>, out: seq<ResolvedFeature>) returns (b: Build)
    requires Lists(cfg, store, order, fs) && OrderSpec(fs, [], Success(out))
    ensures BuildSpec(cfg, store, base, enc, upgrade, Success(b))
  {
    b := Build(out, HashInput(base, out, enc), if upgrade then Some(LockOf(fs)) else None);
    IsPrepared(fs, base, enc, upgrade, b);
    hide Lists, OrderSpec, Prepared;
  }

  /** A leaky configuration has a source for which one build succeeds and another one fails. */
  lemma LeakyConfigLeaks(cfg: map<string, Raw>, store: Store, base: string, enc: Encoder, upgrade: bool)
    returns (store': Store, r: BuildResult, s: BuildResult)
    requires LeakyConfig(cfg, store)
    ensures SameShapes(cfg, store, store')
    ensures TwoBuilds(cfg, store', base, enc, upgrade, r, s)
    ensures r.Success? && s.Failure?
  {
    hide Lists, Share, BuildSpec, SameShapes, TwoOutcomes, SameShape;
    var order: seq<string>, fs: seq<ResolvedFeature> :| Lists(cfg, store, order, fs) && Leaky(fs);
    var i: nat, j: nat :| Share(fs, i, j);
    var hs, a, x, b, y := SharedShortIDLeaks(fs, i, j);
    PairInRange(cfg, store, order, fs, i, j);
    store' := WiredStore(store, ID(fs[i]), fs[i].meta.id + ":x");
    WiredSource(cfg, store, ID(fs[i]), fs[i].meta.id + ":x", order, fs);
    ListsWithLast(cfg, store', order, hs, j);
    ListsWithLast(cfg, store', order, hs, i);
    OutcomesOf(hs, a, x, b, y);
    hide *;
    var build := SuccessIsBuild(cfg, store', base, enc, upgrade, WithLast(order, j), a, x.value);
    r := Success(build);
    FailureIsBuild(cfg, store', base, enc, upgrade, WithLast(order, i), b, CircularInstallsAfter);
    s := Failure(Unordered(CircularInstallsAfter));
  }

  lemma PairInRange(cfg: map<string, Raw>, store: Store, order: seq<string>, fs: seq<ResolvedFeature>, i: nat, j: nat)
    requires Lists(cfg, store, order, fs) && Share(fs, i, j)
    ensures i < |fs| && j < |fs| && |fs| == |order|
  {
    hide FeatureOf, ID, IDs;
  }

  lemma OutcomesOf(hs: seq<ResolvedFeature>, a: seq<ResolvedFeature>, r: OrderResult, b: seq<ResolvedFeature>, s: OrderResult)
    requires TwoOutcomes(hs, a, r, b, s)
    ensures OrderSpec(a, [], r) && OrderSpec(b, [], s)
  {
    hide OrderSpec;
  }

  /**
   For a configuration, the order in which Go visits the map can never be seen,
   whatever the metadata apart from the short IDs, exactly when the configuration is
   not leaky.
   */
  lemma MapOrderInvisibleIff(cfg: map<string, Raw>, store: Store, base: string, enc: Encoder, upgrade: bool)
    ensures !LeakyConfig(cfg, store)
       <==> forall store', r, s :: SameShapes(cfg, store, store') && TwoBuilds(cfg, store', base, enc, upgrade, r, s) ==> SameBuild(r, s)
  {
    hide LeakyConfig, SameShapes, BuildSpec;
    if LeakyConfig(cfg, store) {
      var store', r, s := LeakyConfigLeaks(cfg, store, base, enc, upgrade);
    } else {
      forall store', r, s | SameShapes(cfg, store, store') && TwoBuilds(cfg, store', base, enc, upgrade, r, s)
        ensures SameBuild(r, s)
      {
        NotLeakyHides(cfg, store, store');
        HiddenIsInvisible(cfg, store', base, enc, upgrade, r, s);
      }
    }
  }
}
