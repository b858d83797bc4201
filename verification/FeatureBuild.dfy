/**
 Preparing a feature image (`BuildFeatureImage` in features/build.go, `Resolve`
 in features/download.go): features are taken from a Go map, in any order, then
 resolved, ordered, hashed and, on an upgrade, locked.  What the registry and the
 file system hold during one build is a parameter.
 */
module FeatureBuild {
  import opened Wrappers
  import opened Text
  import opened Collections
  import opened FeatureData
  import opened FeatureIds
  import opened FeatureOrder
  import opened OrderTheorems
  import opened FeatureTag
  import opened Lockfile

  datatype Fetched = Fetched(path: string, meta: FeatureMeta, defaults: map<string, Json>, digest: string)

  type Store = FeatureRef -> Option<Fetched>

  datatype BuildError =
    | BadReference(id: string)
    | Unavailable(rawID: string)
    | Unordered(reason: OrderError)

  /** The prepared build: install order, bytes hashed for the tag, and the new lockfile on an upgrade. */
  datatype Build = Build(ordered: seq<ResolvedFeature>, hashed: string, lock: Option<Lock>)

  type BuildResult = Result<Build, BuildError>

  /** `Resolve`: user options over the defaults; local features have no digest. */
  function Resolve(ref: FeatureRef, store: Store): Option<ResolvedFeature> {
    match store(ref)
    case None => None
    case Some(fetched) =>
      Some(ResolvedFeature(
             ref.(options := fetched.defaults + ref.options),
             fetched.path,
             fetched.meta,
             if ref.source == SourceLocal then "" else fetched.digest))
  }

  /** The feature that a configuration entry stands for. */
  function FeatureOf(cfg: map<string, Raw>, store: Store, id: string): Option<ResolvedFeature> {
    if id !in cfg then None
    else
      match Parsed(id, cfg[id])
      case Failure(_) => None
      case Success(ref) => Resolve(ref, store)
  }

  /** `fs` are the features of the configuration, its keys being visited in the order `order`. */
  ghost predicate Lists(cfg: map<string, Raw>, store: Store, order: seq<string>, fs: seq<ResolvedFeature>) {
    Distinct(order) && SetOf(order) == cfg.Keys && StandFor(cfg, store, order, fs)
  }

  ghost predicate StandFor(cfg: map<string, Raw>, store: Store, order: seq<string>, fs: seq<ResolvedFeature>) {
    |fs| == |order| && forall i :: 0 <= i < |order| ==> FeatureOf(cfg, store, order[i]) == Some(fs[i])
  }

  ghost predicate AllParse(cfg: map<string, Raw>) {
    forall id :: id in cfg ==> Parsed(id, cfg[id]).Success?
  }

  /** What is prepared from a list of features. */
  ghost predicate Prepared(fs: seq<ResolvedFeature>, base: string, enc: Encoder, upgrade: bool, b: Build) {
    && OrderSpec(fs, [], Success(b.ordered))
    && b.hashed == HashInput(base, b.ordered, enc)
    && b.lock == if upgrade then Some(LockOf(fs)) else None
  }

  /** The permitted outcomes of a build, for some order in which the map is visited. */
  ghost predicate BuildSpec(cfg: map<string, Raw>, store: Store, base: string, enc: Encoder, upgrade: bool, r: BuildResult) {
    match r
    case Failure(BadReference(id)) =>
      id in cfg && Parsed(id, cfg[id]).Failure?
    case Failure(Unavailable(rawID)) =>
      AllParse(cfg) && exists id :: id in cfg && FeatureOf(cfg, store, id).None? && Parsed(id, cfg[id]).value.rawID == rawID
    case Failure(Unordered(e)) =>
      exists order, fs :: Lists(cfg, store, order, fs) && OrderSpec(fs, [], Failure(e))
    case Success(b) =>
      exists order, fs :: Lists(cfg, store, order, fs) && Prepared(fs, base, enc, upgrade, b)
  }

  // ---------------------------------------------------------------------
  // The algorithm

  ghost predicate ParsedList(cfg: map<string, Raw>, order: seq<string>, refs: seq<FeatureRef>) {
    && |refs| == |order|
    && forall i :: 0 <= i < |order| ==> order[i] in cfg && Parsed(order[i], cfg[order[i]]) == Success(refs[i])
  }

  lemma DistinctMore(order: seq<string>, id: string)
    requires Distinct(order) && id !in order
    ensures Distinct(order + [id]) && SetOf(order + [id]) == SetOf(order) + {id}
  {
  }

  /** The parsing loop; the keys of a Go map come in any order. */
  method ParseAll(cfg: map<string, Raw>) returns (r: Result<seq<FeatureRef>, string>, ghost order: seq<string>)
    ensures r.Failure? ==> r.error in cfg && Parsed(r.error, cfg[r.error]).Failure?
    ensures r.Success? ==> Distinct(order) && SetOf(order) == cfg.Keys && ParsedList(cfg, order, r.value)
  {
    hide Parsed, Distinct, SetOf;
    var refs: seq<FeatureRef> := [];
    var keys := cfg.Keys;
    order := [];
    NothingVisited();
    while keys != {}
      invariant keys <= cfg.Keys && Distinct(order) && SetOf(order) == cfg.Keys - keys
      invariant ParsedList(cfg, order, refs)
      decreases |keys|
    {
      var id :| id in keys;
      var parsed := Parse(id, cfg[id]);
      if parsed.Failure? {
        return Failure(id), order;
      }
      assert id !in order by { InSetOf(order, id); }
      DistinctMore(order, id);
      refs := refs + [parsed.value];
      order := order + [id];
      keys := keys - {id};
    }
    return Success(refs), order;
  }

  lemma InSetOf(order: seq<string>, id: string)
    ensures id in order <==> id in SetOf(order)
  {
  }

  lemma NothingVisited()
    ensures Distinct<string>([]) && SetOf<string>([]) == {}
  {
  }

  lemma AllParsed(cfg: map<string, Raw>, order: seq<string>, refs: seq<FeatureRef>)
    requires SetOf(order) == cfg.Keys && ParsedList(cfg, order, refs)
    ensures AllParse(cfg)
  {
    hide Parsed;
    forall id | id in cfg ensures Parsed(id, cfg[id]).Success? {
      assert id in SetOf(order);
      var i :| 0 <= i < |order| && order[i] == id;
    }
  }

  /** The resolving loop. */
  method ResolveAll(ghost cfg: map<string, Raw>, store: Store, ghost order: seq<string>, refs: seq<FeatureRef>)
    returns (r: Result<seq<ResolvedFeature>, string>)
    requires Distinct(order) && SetOf(order) == cfg.Keys && ParsedList(cfg, order, refs)
    ensures r.Failure? ==>
              exists id :: id in cfg && FeatureOf(cfg, store, id).None?
                           && Parsed(id, cfg[id]).Success? && Parsed(id, cfg[id]).value.rawID == r.error
    ensures r.Success? ==> Lists(cfg, store, order, r.value)
  {
    hide Parsed, Resolve;
    var resolved: seq<ResolvedFeature> := [];
    for i := 0 to |refs|
      invariant |resolved| == i
      invariant forall k :: 0 <= k < i ==> FeatureOf(cfg, store, order[k]) == Some(resolved[k])
    {
      var rf := Resolve(refs[i], store);
      assert FeatureOf(cfg, store, order[i]) == rf;
      if rf.None? {
        return Failure(refs[i].rawID);
      }
      resolved := resolved + [rf.value];
    }
    return Success(resolved);
  }

  /** `BuildFeatureImage`, up to the point where the image is built. */
  method PrepareBuild(cfg: map<string, Raw>, store: Store, baseDigest: string, enc: Encoder, upgradeLockfile: bool)
    returns (r: BuildResult)
    ensures BuildSpec(cfg, store, baseDigest, enc, upgradeLockfile, r)
  {
    hide Parsed, FeatureOf, Lists, Prepared, OrderSpec, Distinct, SetOf;
    var refs, order := ParseAll(cfg);
    if refs.Failure? {
      return Failure(BadReference(refs.error));
    }
    AllParsed(cfg, order, refs.value);
    var resolved := ResolveAll(cfg, store, order, refs.value);
    if resolved.Failure? {
      return Failure(Unavailable(resolved.error));
    }
    var ordered := Ordered(resolved.value, []);
    if ordered.Failure? {
      return Failure(Unordered(ordered.error));
    }
    var hashed := WriteHash(baseDigest, ordered.value, enc);
    var lock: Option<Lock> := None;
    if upgradeLockfile {
      var entries := BuildLockfile(resolved.value);
      lock := Some(entries);
    }
    var b := Build(ordered.value, hashed, lock);
    assert Prepared(resolved.value, baseDigest, enc, upgradeLockfile, b) by {
      IsPrepared(resolved.value, baseDigest, enc, upgradeLockfile, b);
    }
    return Success(b);
  }

  lemma IsPrepared(fs: seq<ResolvedFeature>, base: string, enc: Encoder, upgrade: bool, b: Build)
    requires OrderSpec(fs, [], Success(b.ordered)) && b.hashed == HashInput(base, b.ordered, enc)
    requires b.lock == if upgrade then Some(LockOf(fs)) else None
    ensures Prepared(fs, base, enc, upgrade, b)
  {
    hide OrderSpec, HashInput, LockOf;
  }

  // ---------------------------------------------------------------------
  // The order of the map cannot be seen

  lemma {:induction false} FeaturesPermuted(cfg: map<string, Raw>, store: Store, a: seq<string>,
                                            fs: seq<ResolvedFeature>, b: seq<string>, gs: seq<ResolvedFeature>)
    requires multiset(a) == multiset(b) && StandFor(cfg, store, a, fs) && StandFor(cfg, store, b, gs)
    ensures multiset(fs) == multiset(gs)
  {
    SameLength(a, b);
    StandForLength(cfg, store, a, fs);
    StandForLength(cfg, store, b, gs);
    hide *;
    if a != [] {
      var k := FindHead(a, b);
      StandForWithout(cfg, store, b, gs, k);
      StandForWithout(cfg, store, a, fs, 0);
      assert fs[0] == gs[k] by { StandForSame(cfg, store, a, fs, b, gs, k); }
      assert a[..0] + a[1..] == a[1..] && fs[..0] + fs[1..] == fs[1..];
      FeaturesPermuted(cfg, store, a[1..], fs[1..], b[..k] + b[k + 1..], gs[..k] + gs[k + 1..]);
      WithoutAt(gs, k);
      WithoutAt(fs, 0);
    }
  }

  lemma StandForLength(cfg: map<string, Raw>, store: Store, order: seq<string>, fs: seq<ResolvedFeature>)
    requires StandFor(cfg, store, order, fs)
    ensures |fs| == |order|
  {
    hide FeatureOf;
  }

  lemma StandForSame(cfg: map<string, Raw>, store: Store, a: seq<string>, fs: seq<ResolvedFeature>, b: seq<string>,
                     gs: seq<ResolvedFeature>, k: nat)
    requires StandFor(cfg, store, a, fs) && StandFor(cfg, store, b, gs) && a != [] && k < |b| && b[k] == a[0]
    ensures fs[0] == gs[k]
  {
    hide FeatureOf;
  }

  lemma StandForWithout(cfg: map<string, Raw>, store: Store, order: seq<string>, fs: seq<ResolvedFeature>, k: nat)
    requires StandFor(cfg, store, order, fs) && k < |order|
    ensures StandFor(cfg, store, order[..k] + order[k + 1..], fs[..k] + fs[k + 1..])
  {
    hide FeatureOf;
  }

  lemma ListsPermute(cfg: map<string, Raw>, store: Store, a: seq<string>, fs: seq<ResolvedFeature>, b: seq<string>,
                     gs: seq<ResolvedFeature>)
    requires Lists(cfg, store, a, fs) && Lists(cfg, store, b, gs)
    ensures multiset(fs) == multiset(gs)
  {
    hide StandFor;
    SameSetPermutes(a, b);
    FeaturesPermuted(cfg, store, a, fs, b, gs);
  }

  /** Recorded features with the same key in the lockfile are the same feature. */
  ghost predicate DistinctRecorded(fs: seq<ResolvedFeature>) {
    forall i, j :: 0 <= i < |fs| && 0 <= j < |fs| && SameKey(fs[i], fs[j]) ==> i == j
  }

  predicate SameKey(f: ResolvedFeature, g: ResolvedFeature) {
    Recorded(f) && Recorded(g) && ToLower(f.ref.rawID) == ToLower(g.ref.rawID)
  }

  /** Everything in one lockfile is in that of a permutation. */
  lemma LockIncluded(fs: seq<ResolvedFeature>, gs: seq<ResolvedFeature>, key: string)
    requires SameMembers(fs, gs) && DistinctRecorded(fs) && DistinctRecorded(gs) && key in LockOf(fs)
    ensures key in LockOf(gs) && LockOf(gs)[key] == LockOf(fs)[key]
  {
    hide ToLower, EntryFor, LockOf;
    var i := LockKey(fs, key);
    LockFound(fs, i);
    assert fs[i] in gs;
    var j :| 0 <= j < |gs| && gs[j] == fs[i];
    LockFound(gs, j);
  }

  lemma LockPermuted(fs: seq<ResolvedFeature>, gs: seq<ResolvedFeature>)
    requires multiset(fs) == multiset(gs) && DistinctRecorded(fs) && DistinctRecorded(gs)
    ensures LockOf(fs) == LockOf(gs)
  {
    PermutationMembers(fs, gs);
    hide LockOf, DistinctRecorded;
    forall key | key in LockOf(fs) ensures key in LockOf(gs) && LockOf(gs)[key] == LockOf(fs)[key] { LockIncluded(fs, gs, key); }
    forall key | key in LockOf(gs) ensures key in LockOf(fs) { LockIncluded(gs, fs, key); }
    assert LockOf(fs).Keys == LockOf(gs).Keys;
  }

  /** The raw ID of a listed OCI feature is its lower-cased key, and determines its node in the graph. */
  lemma RawIDOf(cfg: map<string, Raw>, store: Store, id: string, f: ResolvedFeature)
    requires FeatureOf(cfg, store, id) == Some(f) && f.ref.source == SourceOCI
    ensures f.ref.rawID == ToLower(id) && ToLower(f.ref.rawID) == f.ref.rawID
    ensures ID(f) == StripVersion(f.ref.rawID)
  {
    var ref := Parsed(id, cfg[id]).value;
    OCIShape(id, cfg[id], ref);
    hide Parsed, StripVersion, ToLower, DetectSource, Joined;
    LowerFixed(id);
    assert f.ref.rawID == ref.rawID;
    OCINotEmpty(ref);
  }

  lemma OCINotEmpty(ref: FeatureRef)
    requires StripVersion(ref.rawID) == Joined(ref.registry, ref.namespace, ref.id)
    ensures ref.rawID != ""
  {
    hide FirstFrom, LastBefore;
  }

  /** Distinct nodes have distinct keys in the lockfile. */
  lemma NodesRecordedOnce(cfg: map<string, Raw>, store: Store, order: seq<string>, fs: seq<ResolvedFeature>)
    requires Lists(cfg, store, order, fs) && Distinct(IDs(fs))
    ensures DistinctRecorded(fs)
  {
    hide FeatureOf, ID, ToLower, StripVersion;
    forall i, j | 0 <= i < |fs| && 0 <= j < |fs| && SameKey(fs[i], fs[j]) ensures i == j {
      RawIDOf(cfg, store, order[i], fs[i]);
      RawIDOf(cfg, store, order[j], fs[j]);
      assert IDs(fs)[i] == IDs(fs)[j];
    }
  }

  /** No reference between the features of the configuration is ambiguous. */
  ghost predicate UnambiguousConfig(cfg: map<string, Raw>, store: Store) {
    forall order, fs :: Lists(cfg, store, order, fs) ==> Unambiguous(fs)
  }

  /** Distinct short IDs are enough for that. */
  lemma DistinctShortIDsSuffice(cfg: map<string, Raw>, store: Store)
    requires forall i, j :: SharesShortID(cfg, store, i, j) ==> i == j
    ensures UnambiguousConfig(cfg, store)
  {
    hide FeatureOf, ID, StripVersion;
    forall order: seq<string>, fs: seq<ResolvedFeature> | Lists(cfg, store, order, fs) ensures Unambiguous(fs) {
      forall g: ResolvedFeature, h: ResolvedFeature | g in fs && h in fs && g.meta.id == h.meta.id != "" ensures g == h {
        var i :| 0 <= i < |fs| && fs[i] == g;
        var j :| 0 <= j < |fs| && fs[j] == h;
        assert SharesShortID(cfg, store, order[i], order[j]);
        assert FeatureOf(cfg, store, order[i]) == FeatureOf(cfg, store, order[j]);
      }
    }
  }

  /** Two entries whose features have the same, non-empty short ID. */
  predicate SharesShortID(cfg: map<string, Raw>, store: Store, i: string, j: string) {
    var f, g := FeatureOf(cfg, store, i), FeatureOf(cfg, store, j);
    f.Some? && g.Some? && f.value.meta.id == g.value.meta.id != ""
  }

  /** The same build, or a failure in the same phase. */
  ghost predicate SameBuild(r: BuildResult, s: BuildResult) {
    match (r, s)
    case (Success(a), Success(b)) => a == b
    case (Failure(BadReference(_)), Failure(BadReference(_))) => true
    case (Failure(Unavailable(_)), Failure(Unavailable(_))) => true
    case (Failure(Unordered(a)), Failure(Unordered(b))) => SameOutcome(Failure(a), Failure(b))
    case _ => false
  }

  /** Whatever the orders in which the configuration is listed, ordering has the same outcome. */
  ghost predicate OrderHidden(cfg: map<string, Raw>, store: Store) {
    forall o, fs, x, p, gs, y ::
      Lists(cfg, store, o, fs) && OrderSpec(fs, [], x) && Lists(cfg, store, p, gs) && OrderSpec(gs, [], y) ==> SameOutcome(x, y)
  }

  lemma SamePrepared(cfg: map<string, Raw>, store: Store, base: string, enc: Encoder, upgrade: bool,
                     o: seq<string>, fs: seq<ResolvedFeature>, a: Build, p: seq<string>, gs: seq<ResolvedFeature>, b: Build)
    requires SameOutcome(Success(a.ordered), Success(b.ordered))
    requires Lists(cfg, store, o, fs) && Prepared(fs, base, enc, upgrade, a)
    requires Lists(cfg, store, p, gs) && Prepared(gs, base, enc, upgrade, b)
    ensures a == b
  {
    hide OrderSpec, HashInput, LockOf;
    ListsPermute(cfg, store, o, fs, p, gs);
    OrderedDistinct(fs, a.ordered);
    OrderedDistinct(gs, b.ordered);
    NodesRecordedOnce(cfg, store, o, fs);
    NodesRecordedOnce(cfg, store, p, gs);
    hide Lists, Distinct, DistinctRecorded;
    LockPermuted(fs, gs);
  }

  lemma OrderedDistinct(fs: seq<ResolvedFeature>, out: seq<ResolvedFeature>)
    requires OrderSpec(fs, [], Success(out))
    ensures Distinct(IDs(fs)) && multiset(out) == multiset(fs)
  {
    SuccessIsDistinct(fs, out);
  }

  lemma UnambiguousHides(cfg: map<string, Raw>, store: Store)
    requires UnambiguousConfig(cfg, store)
    ensures OrderHidden(cfg, store)
  {
    hide OrderSpec, Lists, Unambiguous, SameOutcome;
    forall o, fs, x, p, gs, y | Lists(cfg, store, o, fs) && OrderSpec(fs, [], x) && Lists(cfg, store, p, gs) && OrderSpec(gs, [], y)
      ensures SameOutcome(x, y)
    {
      ListsPermute(cfg, store, o, fs, p, gs);
      InputOrderIrrelevant(fs, gs, [], x, y);
    }
  }

  lemma ListsFindAll(cfg: map<string, Raw>, store: Store, order: seq<string>, fs: seq<ResolvedFeature>, id: string)
    requires Lists(cfg, store, order, fs) && id in cfg
    ensures exists i :: 0 <= i < |fs| && order[i] == id && FeatureOf(cfg, store, id) == Some(fs[i])
    ensures Parsed(id, cfg[id]).Success?
  {
    hide Parsed, Resolve;
    assert id in SetOf(order);
    var i :| 0 <= i < |order| && order[i] == id;
    assert FeatureOf(cfg, store, order[i]) == Some(fs[i]);
  }

  /** Which phase a build fails in depends on the configuration alone. */
  lemma Phase(cfg: map<string, Raw>, store: Store, base: string, enc: Encoder, upgrade: bool, r: BuildResult)
    requires BuildSpec(cfg, store, base, enc, upgrade, r)
    ensures r.Failure? && r.error.BadReference? <==> !AllParse(cfg)
    ensures r.Failure? && r.error.Unavailable? <==> AllParse(cfg) && exists id :: id in cfg && FeatureOf(cfg, store, id).None?
  {
    hide Parsed, FeatureOf, Lists, OrderSpec, Prepared;
    if r.Success? || r.error.Unordered? {
      var order, fs :| Lists(cfg, store, order, fs);
      forall id | id in cfg ensures Parsed(id, cfg[id]).Success? && FeatureOf(cfg, store, id).Some? {
        ListsFindAll(cfg, store, order, fs, id);
      }
    }
  }

  lemma HiddenIsInvisible(cfg: map<string, Raw>, store: Store, base: string, enc: Encoder, upgrade: bool, r: BuildResult, s: BuildResult)
    requires OrderHidden(cfg, store)
    requires BuildSpec(cfg, store, base, enc, upgrade, r) && BuildSpec(cfg, store, base, enc, upgrade, s)
    ensures SameBuild(r, s)
  {
    Phase(cfg, store, base, enc, upgrade, r);
    Phase(cfg, store, base, enc, upgrade, s);
    hide AllParse, FeatureOf;
    if (r.Success? || r.error.Unordered?) && (s.Success? || s.error.Unordered?) {
      var o, fs, x := Visited(cfg, store, base, enc, upgrade, r);
      var p, gs, y := Visited(cfg, store, base, enc, upgrade, s);
      hide BuildSpec, Lists, OrderSpec, Prepared;
      assert SameOutcome(x, y);
      if r.Success? && s.Success? { SamePrepared(cfg, store, base, enc, upgrade, o, fs, r.value, p, gs, s.value); }
    }
  }

  /**
   As long as no reference is ambiguous, two builds of the same configuration give
   the same install order, the same hashed bytes and the same lockfile, or fail in
   the same phase, however Go visits the feature map.
   */
  lemma MapOrderInvisible(cfg: map<string, Raw>, store: Store, base: string, enc: Encoder, upgrade: bool, r: BuildResult, s: BuildResult)
    requires UnambiguousConfig(cfg, store)
    requires BuildSpec(cfg, store, base, enc, upgrade, r) && BuildSpec(cfg, store, base, enc, upgrade, s)
    ensures SameBuild(r, s)
  {
    UnambiguousHides(cfg, store);
    HiddenIsInvisible(cfg, store, base, enc, upgrade, r, s);
  }

  /** The order in which the map was visited in a build that reached the ordering phase. */
  lemma Visited(cfg: map<string, Raw>, store: Store, base: string, enc: Encoder, upgrade: bool, r: BuildResult)
    returns (order: seq<string>, fs: seq<ResolvedFeature>, x: OrderResult)
    requires BuildSpec(cfg, store, base, enc, upgrade, r) && (r.Success? || r.error.Unordered?)
    ensures Lists(cfg, store, order, fs) && OrderSpec(fs, [], x)
    ensures r.Success? ==> x == Success(r.value.ordered) && Prepared(fs, base, enc, upgrade, r.value)
    ensures r.Failure? ==> x == Failure(r.error.reason)
  {
    hide Lists, OrderSpec;
    if r.Success? {
      order, fs :| Lists(cfg, store, order, fs) && Prepared(fs, base, enc, upgrade, r.value);
      x := Success(r.value.ordered);
    } else {
      order, fs :| Lists(cfg, store, order, fs) && OrderSpec(fs, [], Failure(r.error.reason));
      x := Failure(r.error.reason);
    }
  }

  /** A successful build installs the feature of every configuration entry, and no others. */
  lemma InstallsConfiguration(cfg: map<string, Raw>, store: Store, base: string, enc: Encoder, upgrade: bool, b: Build, f: ResolvedFeature)
    requires BuildSpec(cfg, store, base, enc, upgrade, Success(b))
    ensures |b.ordered| == |cfg| && Distinct(IDs(b.ordered))
    ensures f in b.ordered <==> exists id :: id in cfg && FeatureOf(cfg, store, id) == Some(f)
  {
    var order, fs, x := Visited(cfg, store, base, enc, upgrade, Success(b));
    OrderedDistinct(fs, b.ordered);
    DistinctCardinality(order);
    PermutationMembers(b.ordered, fs);
    SameLength(b.ordered, fs);
    SameIDs(fs, b.ordered);
    assert |cfg.Keys| == |cfg|;
    hide BuildSpec, OrderSpec, FeatureOf, IDs, Prepared, Distinct;
    if f in fs {
      var i :| 0 <= i < |fs| && fs[i] == f;
      assert FeatureOf(cfg, store, order[i]) == Some(f) && order[i] in SetOf(order);
    }
    if id :| id in cfg && FeatureOf(cfg, store, id) == Some(f) { ListsFindAll(cfg, store, order, fs, id); }
  }

  /**
   What a successful build installs for each configuration entry: the feature that the store
   has for the entry's reference, with its own options and the defaults for the others.
   */
  lemma InstalledMeans(cfg: map<string, Raw>, store: Store, base: string, enc: Encoder, upgrade: bool, b: Build, id: string)
    returns (f: ResolvedFeature, ref: FeatureRef, fetched: Fetched)
    requires BuildSpec(cfg, store, base, enc, upgrade, Success(b)) && id in cfg
    ensures f in b.ordered && Refers(id, cfg[id], ref) && store(ref) == Some(fetched)
    ensures f.meta == fetched.meta && f.path == fetched.path
    ensures f.digest == if HasPrefix(ToLower(id), "./") || HasPrefix(ToLower(id), "../") then "" else fetched.digest
    ensures f.ref.rawID == ref.rawID && f.ref.registry == ref.registry && f.ref.namespace == ref.namespace
    ensures f.ref.id == ref.id && f.ref.version == ref.version && f.ref.source == ref.source
    ensures cfg[id].Some? && cfg[id].value.Object? ==>
              forall k :: k in cfg[id].value.fields ==> k in f.ref.options && f.ref.options[k] == cfg[id].value.fields[k]
    ensures forall k :: k in fetched.defaults && !(cfg[id].Some? && cfg[id].value.Object? && k in cfg[id].value.fields) ==>
              k in f.ref.options && f.ref.options[k] == fetched.defaults[k]
    ensures forall k :: k in f.ref.options ==>
              k in fetched.defaults || (cfg[id].Some? && cfg[id].value.Object? && k in cfg[id].value.fields)
  {
    ref, f := Installed(cfg, store, base, enc, upgrade, b, id);
    fetched := store(ref).value;
    hide BuildSpec, Resolve;
    LocalText(id, cfg[id], ref);
    OwnOptions(id, cfg[id], ref);
    ResolvedMeans(ref, store, f);
    hide HasPrefix, ToLower, Refers;
  }

  lemma Installed(cfg: map<string, Raw>, store: Store, base: string, enc: Encoder, upgrade: bool, b: Build, id: string)
    returns (ref: FeatureRef, f: ResolvedFeature)
    requires BuildSpec(cfg, store, base, enc, upgrade, Success(b)) && id in cfg
    ensures Refers(id, cfg[id], ref) && Resolve(ref, store) == Some(f) && f in b.ordered
  {
    var order, fs, x := Visited(cfg, store, base, enc, upgrade, Success(b));
    ListsFindAll(cfg, store, order, fs, id);
    hide Parsed, BuildSpec, OrderSpec, Prepared, Lists, Resolve;
    ref := Parsed(id, cfg[id]).value;
    ParsedIffRefers(id, cfg[id], ref);
    f := FeatureOf(cfg, store, id).value;
    InstallsConfiguration(cfg, store, base, enc, upgrade, b, f);
    hide Refers;
  }

  lemma ResolvedMeans(ref: FeatureRef, store: Store, f: ResolvedFeature)
    requires Resolve(ref, store) == Some(f)
    ensures store(ref).Some? && f.meta == store(ref).value.meta && f.path == store(ref).value.path
    ensures f.digest == if ref.source == SourceLocal then "" else store(ref).value.digest
    ensures f.ref.(options := ref.options) == ref
    ensures forall k :: k in f.ref.options <==> k in ref.options || k in store(ref).value.defaults
    ensures forall k :: k in f.ref.options ==>
              f.ref.options[k] == if k in ref.options then ref.options[k] else store(ref).value.defaults[k]
  {
  }

  /** Nothing else is installed. */
  lemma InstalledOnly(cfg: map<string, Raw>, store: Store, base: string, enc: Encoder, upgrade: bool, b: Build, f: ResolvedFeature)
    returns (id: string, ref: FeatureRef, fetched: Fetched)
    requires BuildSpec(cfg, store, base, enc, upgrade, Success(b)) && f in b.ordered
    ensures id in cfg && Refers(id, cfg[id], ref) && store(ref) == Some(fetched)
    ensures f.meta == fetched.meta && f.path == fetched.path && f.ref.rawID == ref.rawID && f.ref.version == ref.version
    ensures |b.ordered| == |cfg|
  {
    InstallsConfiguration(cfg, store, base, enc, upgrade, b, f);
    hide BuildSpec, Parsed;
    id :| id in cfg && FeatureOf(cfg, store, id) == Some(f);
    ref := Parsed(id, cfg[id]).value;
    ParsedIffRefers(id, cfg[id], ref);
    fetched := store(ref).value;
    hide Refers;
  }

  /** Which builds fail while references are parsed, and which while they are resolved. */
  lemma PhaseMeans(cfg: map<string, Raw>, store: Store, base: string, enc: Encoder, upgrade: bool, r: BuildResult)
    requires BuildSpec(cfg, store, base, enc, upgrade, r)
    ensures r.Failure? && r.error.BadReference? <==> exists id :: id in cfg && forall ref :: !Refers(id, cfg[id], ref)
    ensures r.Failure? && r.error.Unavailable?
       <==> (forall id :: id in cfg ==> exists ref :: Refers(id, cfg[id], ref))
            && exists id, ref :: id in cfg && Refers(id, cfg[id], ref) && store(ref).None?
  {
    Phase(cfg, store, base, enc, upgrade, r);
    hide *;
    AllParseMeans(cfg);
    if AllParse(cfg) {
      forall id | id in cfg
        ensures FeatureOf(cfg, store, id).None? <==> exists ref :: Refers(id, cfg[id], ref) && store(ref).None?
      {
        EntryMissing(cfg, store, id);
      }
    }
  }

  lemma AllParseMeans(cfg: map<string, Raw>)
    ensures AllParse(cfg) <==> forall id :: id in cfg ==> exists ref :: Refers(id, cfg[id], ref)
  {
    hide Parsed, Refers;
    forall id, ref | id in cfg ensures Parsed(id, cfg[id]) == Success(ref) <==> Refers(id, cfg[id], ref) {
      ParsedIffRefers(id, cfg[id], ref);
    }
    forall id | id in cfg && Parsed(id, cfg[id]).Success? ensures exists ref :: Refers(id, cfg[id], ref) {
      assert Refers(id, cfg[id], Parsed(id, cfg[id]).value);
    }
    if forall id :: id in cfg ==> exists ref :: Refers(id, cfg[id], ref) {
      forall id | id in cfg ensures Parsed(id, cfg[id]).Success? {
        var ref :| Refers(id, cfg[id], ref);
        assert Parsed(id, cfg[id]) == Success(ref);
      }
    }
  }

  lemma EntryMissing(cfg: map<string, Raw>, store: Store, id: string)
    requires AllParse(cfg) && id in cfg
    ensures FeatureOf(cfg, store, id).None? <==> exists ref :: Refers(id, cfg[id], ref) && store(ref).None?
  {
    hide Parsed, Refers;
    var ref := Parsed(id, cfg[id]).value;
    forall other ensures Refers(id, cfg[id], other) <==> other == ref { ParsedIffRefers(id, cfg[id], other); }
    assert FeatureOf(cfg, store, id).None? <==> store(ref).None?;
  }

  lemma LocalText(id: string, options: Raw, ref: FeatureRef)
    requires Refers(id, options, ref)
    ensures ref.source == SourceLocal <==> HasPrefix(ToLower(id), "./") || HasPrefix(ToLower(id), "../")
  {
    SourcesExclude(ToLower(id));
    hide HasPrefix, ToLower, Tags, PlainReferenceText;
  }

  lemma OwnOptions(id: string, options: Raw, ref: FeatureRef)
    requires Refers(id, options, ref)
    ensures ref.options == if options.Some? && options.value.Object? then options.value.fields else map[]
  {
    hide HasPrefix, ToLower, Tags, RefersTo;
  }

  /** After an upgrade the lockfile pins each recorded entry to its digest, exactly when that is a plain SHA-256 one. */
  lemma UpgradePins(cfg: map<string, Raw>, store: Store, base: string, enc: Encoder, b: Build, id: string, f: ResolvedFeature)
    requires BuildSpec(cfg, store, base, enc, true, Success(b))
    requires id in cfg && FeatureOf(cfg, store, id) == Some(f) && Recorded(f)
    ensures b.lock.Some?
    ensures ResolveDigest(b.lock.value, id) == f.digest <==> PlainDigest(f.digest)
  {
    var order, fs, x := Visited(cfg, store, base, enc, true, Success(b));
    hide BuildSpec;
    OrderedDistinct(fs, b.ordered);
    NodesRecordedOnce(cfg, store, order, fs);
    RawIDOf(cfg, store, id, f);
    hide *;
    PinnedIn(cfg, store, order, fs, id, f);
    LookupLowered(LockOf(fs), id, f.ref.rawID);
    PreparedLock(fs, base, enc, b);
  }

  lemma PreparedLock(fs: seq<ResolvedFeature>, base: string, enc: Encoder, b: Build)
    requires Prepared(fs, base, enc, true, b)
    ensures b.lock == Some(LockOf(fs))
  {
    hide OrderSpec, HashInput, LockOf;
  }

  lemma LookupLowered(lock: Lock, id: string, rawID: string)
    requires ToLower(id) == ToLower(rawID)
    ensures ResolveDigest(lock, id) == ResolveDigest(lock, rawID)
  {
  }

  lemma PinnedIn(cfg: map<string, Raw>, store: Store, order: seq<string>, fs: seq<ResolvedFeature>, id: string, f: ResolvedFeature)
    requires Lists(cfg, store, order, fs) && DistinctRecorded(fs)
    requires id in cfg && FeatureOf(cfg, store, id) == Some(f) && Recorded(f)
    ensures ResolveDigest(LockOf(fs), f.ref.rawID) == f.digest <==> PlainDigest(f.digest)
  {
    ListsFindAll(cfg, store, order, fs, id);
    hide FeatureOf, ToLower, Lists, PlainDigest, LockOf, ResolveDigest;
    var i :| 0 <= i < |fs| && order[i] == id && FeatureOf(cfg, store, id) == Some(fs[i]);
    LockfileReadsBackIff(fs, i);
  }

  /** The lockfile has an entry for nothing else. */
  lemma UpgradePinsOnly(cfg: map<string, Raw>, store: Store, base: string, enc: Encoder, b: Build, key: string)
    requires BuildSpec(cfg, store, base, enc, true, Success(b)) && b.lock.Some? && key in b.lock.value
    ensures exists id, f :: id in cfg && FeatureOf(cfg, store, id) == Some(f) && Recorded(f) && ToLower(id) == key
                            && b.lock.value[key] == EntryFor(f)
  {
    var order, fs, x := Visited(cfg, store, base, enc, true, Success(b));
    hide BuildSpec;
    OrderedDistinct(fs, b.ordered);
    NodesRecordedOnce(cfg, store, order, fs);
    hide OrderSpec, ID, IDs, StripVersion, ToLower, HashInput, LockOf, FeatureOf;
    var i := LockKey(fs, key);
    LockFound(fs, i);
    assert order[i] in SetOf(order);
    RawIDOf(cfg, store, order[i], fs[i]);
  }
}
