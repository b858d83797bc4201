/**
 The two feature merges: user and project lists of dcx config features
 (config/load.go, config/types.go), and project features with dcx defaults
 (cli/up.go).
 */
module ConfigMerge {
  import opened Wrappers
  import opened Collections
  import opened FeatureData
  import opened FeatureIds

  /** A config feature; absent options serialize as an empty object. */
  datatype Feature = Feature(id: string, options: Option<map<string, Json>>) {
    function RawOptions(): Json {
      Object(if options.Some? then options.value else map[])
    }
  }

  // ---------------------------------------------------------------------
  // Lists as maps

  /** The value that `AsSpecFeatures` gives a list: later entries overwrite earlier ones. */
  function SpecMap(fs: seq<Feature>): map<string, Json> {
    if fs == [] then map[]
    else
      var f := fs[|fs| - 1];
      SpecMap(fs[..|fs| - 1])[FeatureID(f.id) := f.RawOptions()]
  }

  /** `AsSpecFeatures`. */
  method AsSpecFeatures(features: seq<Feature>) returns (result: map<string, Json>)
    ensures result == SpecMap(features)
  {
    result := map[];
    for i := 0 to |features|
      invariant result == SpecMap(features[..i])
    {
      assert features[..i + 1][..i] == features[..i];
      result := result[FeatureID(features[i].id) := features[i].RawOptions()];
    }
    assert features[..|features|] == features;
  }

  // ---------------------------------------------------------------------
  // mergeFeatures

  /** The position of the last feature with the given ID, or -1. */
  function LastWith(fs: seq<Feature>, id: string): (i: int)
    ensures -1 <= i < |fs|
    ensures i >= 0 ==> fs[i].id == id
    ensures forall k :: i < k < |fs| ==> fs[k].id != id
  {
    if fs == [] then -1
    else if fs[|fs| - 1].id == id then |fs| - 1
    else
      assert fs == fs[..|fs| - 1] + [fs[|fs| - 1]];
      LastWith(fs[..|fs| - 1], id)
  }

  /** The project features whose ID no user feature has, in their order. */
  function ProjectOnly(user: seq<Feature>, project: seq<Feature>): seq<Feature> {
    if project == [] then []
    else
      var f := project[|project| - 1];
      ProjectOnly(user, project[..|project| - 1]) + if LastWith(user, f.id) == -1 then [f] else []
  }

  /** A user list in which the last feature of each ID gives way to the project's last one. */
  function Replaced(user: seq<Feature>, project: seq<Feature>): (r: seq<Feature>)
    ensures |r| == |user|
    ensures forall i :: 0 <= i < |user| ==> r[i] == Replacement(user, project, i)
  {
    seq(|user|, i requires 0 <= i < |user| => Replacement(user, project, i))
  }

  function Replacement(user: seq<Feature>, project: seq<Feature>, i: nat): Feature
    requires i < |user|
  {
    var j := LastWith(project, user[i].id);
    if i == LastWith(user, user[i].id) && j >= 0 then project[j] else user[i]
  }

  function Merged(user: seq<Feature>, project: seq<Feature>): (r: seq<Feature>)
    ensures |r| >= |user|
  {
    Replaced(user, project) + ProjectOnly(user, project)
  }

  /** The user features and the index remembered for each ID. */
  method CopyUser(user: seq<Feature>) returns (result: seq<Feature>, seen: map<string, int>)
    ensures result == user && SeenMatches(seen, user)
  {
    seen, result := map[], [];
    for i := 0 to |user|
      invariant result == user[..i]
      invariant SeenMatches(seen, user[..i])
    {
      hide SeenMatches;
      SeenMore(seen, user[..i], user[i]);
      assert user[..i + 1] == user[..i] + [user[i]];
      result := result + [user[i]];
      seen := seen[user[i].id := |result| - 1];
    }
    assert user[..|user|] == user;
  }

  /** `mergeFeatures`. */
  method MergeFeatures(user: seq<Feature>, project: seq<Feature>) returns (result: seq<Feature>)
    ensures result == Merged(user, project)
  {
    if |user| == 0 {
      NothingReplaced(user, project);
      return project;
    }
    if |project| == 0 {
      assert Replaced(user, project) == user;
      return user;
    }
    var seen;
    result, seen := CopyUser(user);
    EmptyProject(user);
    assert result == Merged(user, project[..0]);
    hide LastWith, Merged, Replaced;
    for j := 0 to |project|
      invariant result == Merged(user, project[..j])
    {
      var f := project[j];
      assert project[..j + 1] == project[..j] + [f];
      MergedMore(user, project[..j], f);
      assert f.id in seen <==> LastWith(user, f.id) >= 0;
      if f.id in seen {
        result := result[seen[f.id] := f];
      } else {
        result := result + [f];
      }
    }
    assert project[..|project|] == project;
  }

  /** The index remembered for an ID is that of its last occurrence. */
  ghost predicate SeenMatches(seen: map<string, int>, fs: seq<Feature>) {
    forall id :: if id in seen then seen[id] == LastWith(fs, id) >= 0 else LastWith(fs, id) == -1
  }

  lemma LastWithMore(fs: seq<Feature>, f: Feature, id: string)
    ensures LastWith(fs + [f], id) == if f.id == id then |fs| else LastWith(fs, id)
  {
    assert (fs + [f])[..|fs|] == fs;
  }

  lemma SeenMore(seen: map<string, int>, fs: seq<Feature>, f: Feature)
    requires SeenMatches(seen, fs)
    ensures SeenMatches(seen[f.id := |fs|], fs + [f])
  {
    forall id { LastWithMore(fs, f, id); }
  }

  lemma {:induction false} NothingReplaced(user: seq<Feature>, project: seq<Feature>)
    requires user == []
    ensures Merged(user, project) == project
  {
    if project != [] {
      NothingReplaced(user, project[..|project| - 1]);
      assert project == project[..|project| - 1] + [project[|project| - 1]];
    }
  }

  lemma ReplacedMore(user: seq<Feature>, project: seq<Feature>, f: Feature)
    ensures var at := LastWith(user, f.id);
            Replaced(user, project + [f]) == if at >= 0 then Replaced(user, project)[at := f] else Replaced(user, project)
  {
    var at := LastWith(user, f.id);
    forall i | 0 <= i < |user|
      ensures Replacement(user, project + [f], i) == if i == at then f else Replacement(user, project, i)
    {
      LastWithMore(project, f, user[i].id);
      hide LastWith;
    }
    hide LastWith, Replacement;
  }

  lemma ProjectOnlyMore(user: seq<Feature>, project: seq<Feature>, f: Feature)
    ensures ProjectOnly(user, project + [f]) == ProjectOnly(user, project) + if LastWith(user, f.id) == -1 then [f] else []
  {
    hide LastWith;
    assert (project + [f])[..|project|] == project;
  }

  /** One project feature more: it replaces in place, or is appended. */
  lemma MergedMore(user: seq<Feature>, project: seq<Feature>, f: Feature)
    ensures var at := LastWith(user, f.id);
            Merged(user, project + [f])
            == if at >= 0 then Merged(user, project)[at := f] else Merged(user, project) + [f]
  {
    ReplacedMore(user, project, f);
    ProjectOnlyMore(user, project, f);
    hide LastWith, Replaced, ProjectOnly;
  }

  /** No user feature has the ID of `f`. */
  predicate NewTo(user: seq<Feature>, f: Feature) {
    forall i :: 0 <= i < |user| ==> user[i].id != f.id
  }

  lemma {:induction false} ProjectOnlyPicks(user: seq<Feature>, project: seq<Feature>) returns (at: seq<nat>)
    ensures |at| == |ProjectOnly(user, project)| && Picks(project, f => NewTo(user, f), at)
    ensures forall n :: 0 <= n < |at| ==> ProjectOnly(user, project)[n] == project[at[n]]
  {
    hide Picks, NewTo;
    var keep := f => NewTo(user, f);
    if project == [] {
      at := [];
      PicksNone(keep);
    } else {
      var n := |project| - 1;
      at := ProjectOnlyPicks(user, project[..n]);
      NewToLast(user, project[n]);
      hide LastWith;
      PicksMore(project[..n], keep, at, project[n]);
      PicksWithin(project[..n], keep, at);
      assert project[..n] + [project[n]] == project;
      if keep(project[n]) { at := at + [n]; }
    }
  }

  lemma NewToLast(user: seq<Feature>, f: Feature)
    ensures NewTo(user, f) <==> LastWith(user, f.id) == -1
  {
  }

  /**
   The merged list by positions: a user feature gives way to the last project feature with its ID, unless a
   later user feature has that ID too; then come, in order, the project features with an ID of their own.
   */
  lemma MergedMeans(user: seq<Feature>, project: seq<Feature>) returns (at: seq<nat>)
    ensures |Merged(user, project)| == |user| + |at| && Increasing(at)
    ensures forall i, j :: 0 <= i < |user| && 0 <= j < |project| && project[j].id == user[i].id
                           && (forall k :: i < k < |user| ==> user[k].id != user[i].id)
                           && (forall k :: j < k < |project| ==> project[k].id != user[i].id) ==>
              Merged(user, project)[i] == project[j]
    ensures forall i :: 0 <= i < |user| && (forall j :: 0 <= j < |project| ==> project[j].id != user[i].id) ==>
              Merged(user, project)[i] == user[i]
    ensures forall i, k :: 0 <= i < k < |user| && user[k].id == user[i].id ==> Merged(user, project)[i] == user[i]
    ensures forall n :: 0 <= n < |at| ==>
              && at[n] < |project| && Merged(user, project)[|user| + n] == project[at[n]]
              && forall i :: 0 <= i < |user| ==> user[i].id != project[at[n]].id
    ensures forall j :: 0 <= j < |project| && (forall i :: 0 <= i < |user| ==> user[i].id != project[j].id) ==> j in at
  {
    at := ProjectOnlyPicks(user, project);
    hide LastWith, ProjectOnly;
    MergedParts(user, project);
    PicksWithin(project, f => NewTo(user, f), at);
    forall i, j | 0 <= i < |user| && 0 <= j < |project| && project[j].id == user[i].id
                  && (forall k :: i < k < |user| ==> user[k].id != user[i].id)
                  && (forall k :: j < k < |project| ==> project[k].id != user[i].id)
      ensures Merged(user, project)[i] == project[j]
    {
      assert LastWith(user, user[i].id) == i && LastWith(project, user[i].id) == j;
    }
    hide Merged, Replacement;
    forall n | 0 <= n < |at| ensures NewTo(user, project[at[n]]) {}
    forall j | 0 <= j < |project| && (forall i :: 0 <= i < |user| ==> user[i].id != project[j].id) ensures j in at {
      assert NewTo(user, project[j]);
    }
  }

  lemma MergedParts(user: seq<Feature>, project: seq<Feature>)
    ensures |Merged(user, project)| == |user| + |ProjectOnly(user, project)|
    ensures forall i :: 0 <= i < |user| ==> Merged(user, project)[i] == Replacement(user, project, i)
    ensures forall n :: 0 <= n < |ProjectOnly(user, project)| ==> Merged(user, project)[|user| + n] == ProjectOnly(user, project)[n]
    ensures forall i :: 0 <= i < |user| && (LastWith(project, user[i].id) == -1 || LastWith(user, user[i].id) != i) ==>
              Merged(user, project)[i] == user[i]
  {
    hide LastWith, ProjectOnly;
  }

  /** The map of a list: the printed IDs, each with the options of the last feature printed so. */
  lemma SpecMapMeans(fs: seq<Feature>)
    ensures forall key :: key in SpecMap(fs) <==> exists i :: 0 <= i < |fs| && FeatureID(fs[i].id) == key
    ensures forall i :: 0 <= i < |fs| && (forall k :: i < k < |fs| ==> FeatureID(fs[k].id) != FeatureID(fs[i].id)) ==>
              && FeatureID(fs[i].id) in SpecMap(fs)
              && SpecMap(fs)[FeatureID(fs[i].id)] == Object(if fs[i].options.Some? then fs[i].options.value else map[])
  {
    hide FeatureID, SpecMap;
    forall key ensures key in SpecMap(fs) <==> exists i :: 0 <= i < |fs| && FeatureID(fs[i].id) == key {
      if key in SpecMap(fs) { SpecMapKeys(fs, key); }
      if i :| 0 <= i < |fs| && FeatureID(fs[i].id) == key { SpecMapHas(fs, i); }
    }
    forall i | 0 <= i < |fs| && (forall k :: i < k < |fs| ==> FeatureID(fs[k].id) != FeatureID(fs[i].id))
      ensures FeatureID(fs[i].id) in SpecMap(fs) && SpecMap(fs)[FeatureID(fs[i].id)] == fs[i].RawOptions()
    {
      SpecMapHas(fs, i);
      SpecMapLast(fs, i);
    }
  }

  lemma {:induction false} SpecMapHas(fs: seq<Feature>, i: nat)
    requires i < |fs|
    ensures FeatureID(fs[i].id) in SpecMap(fs)
  {
    hide FeatureID;
    if i < |fs| - 1 { SpecMapHas(fs[..|fs| - 1], i); }
  }

  lemma {:induction false} SpecMapLast(fs: seq<Feature>, i: nat)
    requires i < |fs| && FeatureID(fs[i].id) in SpecMap(fs)
    requires forall k :: i < k < |fs| ==> FeatureID(fs[k].id) != FeatureID(fs[i].id)
    ensures SpecMap(fs)[FeatureID(fs[i].id)] == fs[i].RawOptions()
  {
    hide FeatureID;
    if i < |fs| - 1 { SpecMapLast(fs[..|fs| - 1], i); }
  }

  // ---------------------------------------------------------------------
  // The law

  function Found(fs: seq<Feature>, id: string): Option<Feature> {
    var i := LastWith(fs, id);
    if i >= 0 then Some(fs[i]) else None
  }

  /** By ID, the merged list reads as the project list over the user list. */
  lemma {:induction false} MergedFound(user: seq<Feature>, project: seq<Feature>, id: string)
    ensures Found(Merged(user, project), id) == if Found(project, id).Some? then Found(project, id) else Found(user, id)
  {
    hide LastWith, Merged;
    if project == [] {
      EmptyProject(user);
      assert LastWith([], id) == -1;
    } else {
      var rest, f := project[..|project| - 1], project[|project| - 1];
      assert project == rest + [f];
      MergedFound(user, rest, id);
      MergedMore(user, rest, f);
      LastWithMore(rest, f, id);
      var at := LastWith(user, f.id);
      if at >= 0 {
        MergedLast(user, rest, f.id);
        MergedAt(user, rest, f.id);
        UpdateKeepsLast(Merged(user, rest), at, f, id);
      } else {
        LastWithMore(Merged(user, rest), f, id);
      }
    }
  }

  lemma MergedAt(user: seq<Feature>, project: seq<Feature>, id: string)
    requires LastWith(Merged(user, project), id) == LastWith(user, id) >= 0
    ensures Merged(user, project)[LastWith(user, id)].id == id
  {
    hide LastWith, Merged;
  }

  lemma UpdateKeepsLast(fs: seq<Feature>, at: nat, f: Feature, id: string)
    requires at < |fs| && fs[at].id == f.id && LastWith(fs, f.id) == at
    ensures Found(fs[at := f], id) == if f.id == id then Some(f) else Found(fs, id)
  {
    var i, j := LastWith(fs, id), LastWith(fs[at := f], id);
    assert forall k :: 0 <= k < |fs| ==> fs[at := f][k].id == fs[k].id;
  }

  lemma {:induction false} ProjectOnlyFresh(user: seq<Feature>, project: seq<Feature>, k: nat)
    requires k < |ProjectOnly(user, project)|
    ensures LastWith(user, ProjectOnly(user, project)[k].id) == -1
  {
    hide LastWith;
    var rest := project[..|project| - 1];
    if k < |ProjectOnly(user, rest)| { ProjectOnlyFresh(user, rest, k); }
  }

  /** The merged list keeps the last position of every user ID. */
  lemma MergedLast(user: seq<Feature>, project: seq<Feature>, id: string)
    requires LastWith(user, id) >= 0
    ensures LastWith(Merged(user, project), id) == LastWith(user, id)
  {
    var merged, at := Merged(user, project), LastWith(user, id);
    assert merged[at] == Replacement(user, project, at);
    forall k | at < k < |merged| ensures merged[k].id != id {
      if k < |user| {
        assert merged[k] == Replacement(user, project, k);
      } else {
        assert merged[k] == ProjectOnly(user, project)[k - |user|];
        ProjectOnlyFresh(user, project, k - |user|);
      }
    }
  }

  /** Different IDs from `ids` print as different feature IDs. */
  ghost predicate Injective(ids: set<string>) {
    forall a, b :: a in ids && b in ids && FeatureID(a) == FeatureID(b) ==> a == b
  }

  ghost predicate DrawnFrom(fs: seq<Feature>, ids: set<string>) {
    forall i :: 0 <= i < |fs| ==> fs[i].id in ids
  }

  /** With injective IDs, looking up a printed ID finds the last feature with that ID. */
  lemma {:induction false} SpecMapFound(fs: seq<Feature>, ids: set<string>, id: string)
    requires Injective(ids) && DrawnFrom(fs, ids) && id in ids
    ensures FeatureID(id) in SpecMap(fs) <==> Found(fs, id).Some?
    ensures Found(fs, id).Some? ==> SpecMap(fs)[FeatureID(id)] == Found(fs, id).value.RawOptions()
  {
    hide FeatureID;
    if fs != [] {
      var rest, f := fs[..|fs| - 1], fs[|fs| - 1];
      assert fs == rest + [f];
      SpecMapFound(rest, ids, id);
      LastWithMore(rest, f, id);
    }
  }

  lemma {:induction false} SpecMapKeys(fs: seq<Feature>, key: string)
    requires key in SpecMap(fs)
    ensures exists i :: 0 <= i < |fs| && FeatureID(fs[i].id) == key
  {
    hide FeatureID;
    var rest := fs[..|fs| - 1];
    if FeatureID(fs[|fs| - 1].id) != key {
      SpecMapKeys(rest, key);
      var i :| 0 <= i < |rest| && FeatureID(rest[i].id) == key;
      assert fs[i] == rest[i];
    }
  }

  ghost predicate MergeLaw(user: seq<Feature>, project: seq<Feature>) {
    SpecMap(Merged(user, project)) == SpecMap(user) + SpecMap(project)
  }

  lemma {:induction false} MergedDrawn(user: seq<Feature>, project: seq<Feature>, ids: set<string>)
    requires DrawnFrom(user, ids) && DrawnFrom(project, ids)
    ensures DrawnFrom(Merged(user, project), ids)
  {
    hide LastWith;
    if project == [] {
      assert Merged(user, project) == user by { EmptyProject(user); }
    } else {
      var rest, f := project[..|project| - 1], project[|project| - 1];
      assert project == rest + [f];
      MergedDrawn(user, rest, ids);
      MergedMore(user, rest, f);
    }
  }

  lemma EmptyProject(user: seq<Feature>)
    ensures Merged(user, []) == user
  {
  }

  lemma InjectiveMerge(ids: set<string>, user: seq<Feature>, project: seq<Feature>)
    requires Injective(ids) && DrawnFrom(user, ids) && DrawnFrom(project, ids)
    ensures MergeLaw(user, project)
  {
    MergedDrawn(user, project, ids);
    var left, right := SpecMap(Merged(user, project)), SpecMap(user) + SpecMap(project);
    forall id | id in ids
      ensures FeatureID(id) in left <==> FeatureID(id) in right
      ensures FeatureID(id) in left ==> left[FeatureID(id)] == right[FeatureID(id)]
    {
      MergedFound(user, project, id);
      SpecMapFound(Merged(user, project), ids, id);
      SpecMapFound(user, ids, id);
      SpecMapFound(project, ids, id);
    }
    hide FeatureID, Merged, Injective;
    forall key | key in left || key in right ensures exists id :: id in ids && FeatureID(id) == key {
      var fs := if key in left then Merged(user, project) else if key in SpecMap(user) then user else project;
      SpecMapKeys(fs, key);
      var i :| 0 <= i < |fs| && FeatureID(fs[i].id) == key;
      assert fs[i].id in ids;
    }
    assert left.Keys == right.Keys;
  }

  /** Two IDs that print alike break the law for some lists. */
  lemma CollisionBreaksMerge(a: string, b: string) returns (user: seq<Feature>, project: seq<Feature>)
    requires a != b && FeatureID(a) == FeatureID(b)
    ensures DrawnFrom(user, {a, b}) && DrawnFrom(project, {a, b}) && !MergeLaw(user, project)
  {
    hide FeatureID;
    var fa, fb, pa := Feature(a, None), Feature(b, Some(map["k" := Null])), Feature(a, None);
    user, project := [fa, fb], [pa];
    EmptyProject(user);
    assert project == [] + [pa];
    MergedMore(user, [], pa);
    LastWithMore([fa], fb, a);
    LastWithMore([], fa, a);
    assert user == [fa] + [fb] && [fa] == [] + [fa];
    assert Merged(user, project) == [pa, fb];
    SpecMapPair(pa, fb);
    SpecMapPair(fa, fb);
    SpecMapMore([], pa);
    hide Merged, LastWith, SpecMap;
    assert SpecMap(project)[FeatureID(a)] == pa.RawOptions();
    assert "k" in fb.RawOptions().fields && "k" !in pa.RawOptions().fields;
    assert SpecMap([pa, fb])[FeatureID(a)] == fb.RawOptions();
  }

  lemma SpecMapMore(fs: seq<Feature>, f: Feature)
    ensures SpecMap(fs + [f]) == SpecMap(fs)[FeatureID(f.id) := f.RawOptions()]
  {
    assert (fs + [f])[..|fs|] == fs;
  }

  lemma SpecMapPair(f: Feature, g: Feature)
    requires FeatureID(f.id) == FeatureID(g.id)
    ensures SpecMap([f, g]) == map[FeatureID(g.id) := g.RawOptions()]
  {
    hide FeatureID;
    assert [f, g] == [f] + [g] && [f] == [] + [f];
    SpecMapMore([f], g);
    SpecMapMore([], f);
  }

  /** For lists over a set of IDs, merging lists is merging maps exactly when printing is injective on the set. */
  lemma MergeLawIff(ids: set<string>)
    ensures Injective(ids)
       <==> forall user, project :: DrawnFrom(user, ids) && DrawnFrom(project, ids) ==> MergeLaw(user, project)
  {
    hide MergeLaw, FeatureID;
    if Injective(ids) {
      hide Injective, DrawnFrom;
      forall user, project | DrawnFrom(user, ids) && DrawnFrom(project, ids) ensures MergeLaw(user, project) {
        InjectiveMerge(ids, user, project);
      }
    } else {
      var a, b :| a in ids && b in ids && FeatureID(a) == FeatureID(b) && a != b;
      var user, project := CollisionBreaksMerge(a, b);
      hide MergeLaw, FeatureID, Injective;
      assert DrawnFrom(user, ids) && DrawnFrom(project, ids);
    }
  }

  // ---------------------------------------------------------------------
  // mergeDefaultFeatures

  ghost function Bases(m: map<string, Json>): set<string> {
    set k | k in m :: BaseFeatureID(k)
  }

  /** Every project entry is kept as it is. */
  ghost predicate KeepsProject(project: map<string, Json>, r: map<string, Json>) {
    forall k :: k in project ==> k in r && r[k] == project[k]
  }

  /** Whatever else is there is one of the defaults `tried`, with a base that the project does not have. */
  ghost predicate AddsDefaults(project: map<string, Json>, defaults: map<string, Json>, tried: set<string>, r: map<string, Json>) {
    forall k :: k in r && k !in project ==>
      k in defaults && k in tried && r[k] == defaults[k] && BaseFeatureID(k) !in Bases(project)
  }

  /** The base of each tried default is there. */
  ghost predicate CoversBases(tried: set<string>, r: map<string, Json>) {
    forall k :: k in tried ==> BaseFeatureID(k) in Bases(r)
  }

  /** A base is represented by a default only when nothing else represents it. */
  ghost predicate OncePerBase(project: map<string, Json>, r: map<string, Json>) {
    forall j, k :: j in r && k in r && j !in project && BaseFeatureID(j) == BaseFeatureID(k) ==> j == k
  }

  /** The permitted results once the defaults `tried` have been dealt with. */
  ghost predicate DefaultsTried(project: map<string, Json>, defaults: map<string, Json>, tried: set<string>, r: map<string, Json>) {
    && KeepsProject(project, r)
    && AddsDefaults(project, defaults, tried, r)
    && CoversBases(tried, r)
    && OncePerBase(project, r)
  }

  /** The permitted results of merging project features with defaults. */
  ghost predicate DefaultsMerged(project: map<string, Json>, defaults: map<string, Json>, r: map<string, Json>) {
    DefaultsTried(project, defaults, defaults.Keys, r)
  }

  lemma BasesMore(m: map<string, Json>, k: string, v: Json)
    ensures Bases(m[k := v]) == Bases(m) + {BaseFeatureID(k)}
  {
    hide BaseFeatureID;
    assert k in m[k := v];
    forall j | j in m ensures j in m[k := v] {}
  }

  lemma BaseIn(m: map<string, Json>, k: string)
    requires k in m
    ensures BaseFeatureID(k) in Bases(m)
  {
    hide BaseFeatureID;
  }

  /** A default whose base is there already is passed over. */
  lemma PassOver(project: map<string, Json>, defaults: map<string, Json>, tried: set<string>, r: map<string, Json>, k: string)
    requires DefaultsTried(project, defaults, tried, r) && BaseFeatureID(k) in Bases(r)
    ensures DefaultsTried(project, defaults, tried + {k}, r)
  {
    hide BaseFeatureID, Bases;
  }

  /** A default with a new base is admitted. */
  lemma Admit(project: map<string, Json>, defaults: map<string, Json>, tried: set<string>, r: map<string, Json>, k: string)
    requires DefaultsTried(project, defaults, tried, r) && k in defaults && BaseFeatureID(k) !in Bases(r)
    ensures DefaultsTried(project, defaults, tried + {k}, r[k := defaults[k]])
  {
    var s := r[k := defaults[k]];
    BasesMore(r, k, defaults[k]);
    BasesKept(project, r);
    AdmitOnce(project, r, k, defaults[k]);
    AdmitAdds(project, defaults, tried, r, k);
    hide BaseFeatureID, Bases, OncePerBase, AddsDefaults;
    assert CoversBases(tried + {k}, s);
    BaseAbsent(r, k);
  }

  lemma AdmitAdds(project: map<string, Json>, defaults: map<string, Json>, tried: set<string>, r: map<string, Json>, k: string)
    requires AddsDefaults(project, defaults, tried, r) && Bases(project) <= Bases(r)
    requires k in defaults && BaseFeatureID(k) !in Bases(r)
    ensures AddsDefaults(project, defaults, tried + {k}, r[k := defaults[k]])
  {
    hide BaseFeatureID, Bases;
  }

  lemma BaseAbsent(r: map<string, Json>, k: string)
    requires BaseFeatureID(k) !in Bases(r)
    ensures forall j :: j in r ==> BaseFeatureID(j) != BaseFeatureID(k)
  {
    hide BaseFeatureID;
    forall j | j in r ensures BaseFeatureID(j) != BaseFeatureID(k) { BaseIn(r, j); }
  }

  lemma AdmitOnce(project: map<string, Json>, r: map<string, Json>, k: string, v: Json)
    requires OncePerBase(project, r) && BaseFeatureID(k) !in Bases(r)
    ensures OncePerBase(project, r[k := v])
  {
    BaseAbsent(r, k);
    hide BaseFeatureID, Bases;
  }

  lemma BasesKept(project: map<string, Json>, r: map<string, Json>)
    requires KeepsProject(project, r)
    ensures Bases(project) <= Bases(r)
  {
    hide BaseFeatureID;
    forall k | k in project ensures BaseFeatureID(k) in Bases(r) { BaseIn(r, k); }
  }

  lemma NothingTried(project: map<string, Json>, defaults: map<string, Json>)
    ensures DefaultsTried(project, defaults, {}, project)
  {
    hide BaseFeatureID;
  }

  /** The base IDs of the project features, collected in any order. */
  method ProjectBases(specFeatures: map<string, Json>) returns (seen: set<string>)
    ensures seen == Bases(specFeatures)
  {
    seen := {};
    var keys := specFeatures.Keys;
    ghost var visited: map<string, Json> := map[];
    while keys != {}
      invariant keys <= specFeatures.Keys
      invariant visited == specFeatures - keys && seen == Bases(visited)
      decreases |keys|
    {
      hide BaseFeatureID, Bases;
      var k :| k in keys;
      BasesMore(visited, k, specFeatures[k]);
      assert specFeatures - (keys - {k}) == visited[k := specFeatures[k]];
      visited := visited[k := specFeatures[k]];
      seen := seen + {BaseFeatureID(k)};
      keys := keys - {k};
    }
    assert visited == specFeatures;
  }

  /** `mergeDefaultFeatures`; both maps are visited in any order. */
  method MergeDefaultFeatures(specFeatures: map<string, Json>, defaultFeatures: map<string, Json>) returns (result: map<string, Json>)
    ensures DefaultsMerged(specFeatures, defaultFeatures, result)
  {
    NothingTried(specFeatures, defaultFeatures);
    if |defaultFeatures| == 0 {
      assert defaultFeatures.Keys == {};
      return specFeatures;
    }
    hide DefaultsTried, BaseFeatureID, Bases;
    result := specFeatures;
    var seen := ProjectBases(specFeatures);
    var keys := defaultFeatures.Keys;
    ghost var tried: set<string> := {};
    while keys != {}
      invariant keys <= defaultFeatures.Keys && tried == defaultFeatures.Keys - keys
      invariant seen == Bases(result) && DefaultsTried(specFeatures, defaultFeatures, tried, result)
      decreases |keys|
    {
      var k :| k in keys;
      var base := BaseFeatureID(k);
      if base in seen {
        PassOver(specFeatures, defaultFeatures, tried, result, k);
      } else {
        Admit(specFeatures, defaultFeatures, tried, result, k);
        BasesMore(result, k, defaultFeatures[k]);
        result := result[k := defaultFeatures[k]];
        seen := seen + {base};
      }
      keys := keys - {k};
      tried := tried + {k};
    }
    assert tried == defaultFeatures.Keys;
  }

  /** Defaults that the project does not shadow have distinct bases. */
  ghost predicate DistinctDefaults(project: map<string, Json>, defaults: map<string, Json>) {
    forall j, k :: j in defaults && k in defaults && BaseFeatureID(j) == BaseFeatureID(k) && BaseFeatureID(k) !in Bases(project) ==> j == k
  }

  /** A permitted result that admits the default `first`. */
  lemma DefaultAdmitted(project: map<string, Json>, defaults: map<string, Json>, first: string) returns (r: map<string, Json>)
    requires first in defaults && BaseFeatureID(first) !in Bases(project)
    ensures DefaultsMerged(project, defaults, r) && first in r
  {
    NothingTried(project, defaults);
    Admit(project, defaults, {}, project, first);
    r := project[first := defaults[first]];
    var tried := {first};
    assert {} + {first} == tried;
    hide BaseFeatureID, Bases, DefaultsTried;
    while tried != defaults.Keys
      invariant tried <= defaults.Keys && first in r
      invariant DefaultsTried(project, defaults, tried, r)
      decreases |defaults.Keys - tried|
    {
      var k :| k in defaults.Keys - tried;
      assert defaults.Keys - (tried + {k}) == (defaults.Keys - tried) - {k};
      if BaseFeatureID(k) in Bases(r) {
        PassOver(project, defaults, tried, r, k);
      } else {
        Admit(project, defaults, tried, r, k);
        r := r[k := defaults[k]];
      }
      tried := tried + {k};
    }
  }

  /** With distinct bases the result is one and the same map. */
  lemma DefaultsDetermined(project: map<string, Json>, defaults: map<string, Json>, r: map<string, Json>, k: string)
    requires DistinctDefaults(project, defaults) && DefaultsMerged(project, defaults, r)
    ensures k in r <==> k in project || (k in defaults && BaseFeatureID(k) !in Bases(project))
  {
    hide BaseFeatureID;
    if k in defaults && BaseFeatureID(k) !in Bases(project) {
      var j :| j in r && BaseFeatureID(j) == BaseFeatureID(k);
      assert j in project ==> BaseFeatureID(j) in Bases(project);
    }
  }

  /** The order in which Go visits the defaults is invisible exactly when the unshadowed bases are distinct. */
  lemma DefaultsDeterministicIff(project: map<string, Json>, defaults: map<string, Json>)
    ensures DistinctDefaults(project, defaults)
       <==> forall r, s :: DefaultsMerged(project, defaults, r) && DefaultsMerged(project, defaults, s) ==> r == s
  {
    hide BaseFeatureID;
    if DistinctDefaults(project, defaults) {
      forall r, s | DefaultsMerged(project, defaults, r) && DefaultsMerged(project, defaults, s) ensures r == s {
        forall k ensures k in r <==> k in s {
          DefaultsDetermined(project, defaults, r, k);
          DefaultsDetermined(project, defaults, s, k);
        }
        assert r.Keys == s.Keys;
      }
    } else {
      var j, k :| j in defaults && k in defaults && BaseFeatureID(j) == BaseFeatureID(k) && BaseFeatureID(k) !in Bases(project) && j != k;
      var r := DefaultAdmitted(project, defaults, j);
      var s := DefaultAdmitted(project, defaults, k);
      assert forall i :: i in project ==> BaseFeatureID(i) in Bases(project);
      assert r != s;
    }
  }
}
