/**
 Stopping and removing: docker.Stop and docker.Down (docker/docker.go), the
 compose counterparts (compose/compose.go), discovery (compose/discovery.go),
 and the `dcx stop` and `dcx down` sequences (cli/stop.go, cli/down.go).
 */
module Teardown {
  import opened Wrappers
  import opened Text
  import opened Collections
  import opened DockerModel

  const DEVCONTAINER_LABEL := "devcontainer.local_folder"
  const PROJECT_LABEL := "com.docker.compose.project"

  datatype DownError = ListFailed | InspectFailed(id: nat) | StopFailed(id: nat) | RemoveFailed(id: nat) | NoDevcontainer

  /** The containers of a workspace folder. */
  ghost function Devcontainers(s: State, folder: string): set<nat> {
    Labelled(s, DEVCONTAINER_LABEL, folder)
  }

  ghost function ProjectContainers(s: State, project: string): set<nat> {
    Labelled(s, PROJECT_LABEL, project)
  }

  // ---------------------------------------------------------------------
  // What tearing down may do to the daemon

  /** The stuck containers are still there. */
  ghost predicate StuckStay(stuck: set<nat>, s: State, t: State) {
    stuck * s.containers.Keys <= t.containers.Keys
  }

  /** Some containers of `ids` may be stopped or gone; nothing else happened to any container. */
  ghost predicate Shrinks(s: State, t: State, ids: set<nat>) {
    && t.next == s.next && t.log == s.log
    && t.containers.Keys <= s.containers.Keys
    && (forall id :: id in s.containers && id !in ids ==> id in t.containers)
    && (forall id :: id in t.containers ==>
          t.containers[id] == s.containers[id] || (id in ids && t.containers[id] == s.containers[id].(running := false)))
  }

  lemma ShrinksTransitive(s: State, t: State, u: State, ids: set<nat>, more: set<nat>)
    requires Shrinks(s, t, ids) && Shrinks(t, u, more) && ids <= more
    ensures Shrinks(s, u, more)
  {
  }

  lemma ShrinksMore(s: State, t: State, ids: set<nat>, more: set<nat>)
    requires Shrinks(s, t, ids) && ids <= more
    ensures Shrinks(s, t, more)
  {
  }

  /** Labels and mounts never change, so later listings are part of earlier ones. */
  lemma ShrinksLabelled(s: State, t: State, ids: set<nat>, key: string, value: string)
    requires Shrinks(s, t, ids)
    ensures Labelled(t, key, value) == Labelled(s, key, value) * t.containers.Keys
  {
    hide HasLabel;
    forall id | id in t.containers ensures t.containers[id].labels == s.containers[id].labels {}
  }

  /** Only volumes mounted by the containers `ids` in `s` are gone from `t`. */
  ghost predicate OnlyVolumesOf(s: State, ids: set<nat>, before: set<string>, after: set<string>) {
    after <= before && forall name :: name in before - after ==> Mounted(s, ids, name)
  }

  lemma MountedMore(s: State, t: State, ids: set<nat>, more: set<nat>, name: string)
    requires Shrinks(s, t, more) && ids <= more && Mounted(t, ids, name)
    ensures Mounted(s, more, name)
  {
    var id, k :| id in ids && id in t.containers && 0 <= k < |t.containers[id].mounts| && IsVolume(t.containers[id].mounts[k], name);
    assert s.containers[id].mounts == t.containers[id].mounts;
  }

  // ---------------------------------------------------------------------
  // docker.Stop and docker.Down

  /** The containers `ids` of `s` are stopped in `t`, and nothing else is different. */
  ghost predicate AllStopped(s: State, t: State, ids: set<nat>) {
    && t == s.(containers := t.containers)
    && t.containers.Keys == s.containers.Keys
    && forall id :: id in s.containers ==>
         t.containers[id] == if id in ids then s.containers[id].(running := false) else s.containers[id]
  }

  /** `docker.Stop`. */
  method Stop(cli: Daemon, folder: string) returns (r: Result<(), DownError>)
    modifies cli
    ensures Shrinks(old(cli.st), cli.st, Devcontainers(old(cli.st), folder))
    ensures cli.st.containers.Keys == old(cli.st).containers.Keys
    ensures cli.st.volumes == old(cli.st).volumes && cli.st.images == old(cli.st).images
    ensures r.Success? ==> Devcontainers(old(cli.st), folder) != {} && AllStopped(old(cli.st), cli.st, Devcontainers(old(cli.st), folder))
    ensures r == Failure(NoDevcontainer) ==> Devcontainers(old(cli.st), folder) == {}
    ensures cli.reliable ==> r == if Devcontainers(old(cli.st), folder) == {} then Failure(NoDevcontainer) else Success(())
  {
    ghost var s, ids := cli.st, Devcontainers(cli.st, folder);
    var containers := cli.ContainerList(DEVCONTAINER_LABEL, folder);
    if containers.Failure? {
      return Failure(ListFailed);
    }
    var items := containers.value;
    IdsBeforeAll(s, ids, items);
    hide Labelled, HasLabel;
    if |items| == 0 {
      return Failure(NoDevcontainer);
    }
    assert items[0].id in ids;
    for i := 0 to |items|
      invariant AllStopped(s, cli.st, IdsBefore(items, i))
    {
      IdsBeforeMore(s, ids, items, i);
      var stopped := cli.ContainerStop(items[i].id);
      if stopped.Failure? {
        return Failure(StopFailed(items[i].id));
      }
    }
    return Success(());
  }

  /** The IDs of the first `n` items of a listing. */
  ghost function IdsBefore(items: seq<Summary>, n: nat): set<nat>
    requires n <= |items|
  {
    set i | 0 <= i < n :: items[i].id
  }

  lemma IdsBeforeMore(s: State, ids: set<nat>, items: seq<Summary>, i: nat)
    requires i < |items| && Lists(s, ids, items)
    ensures IdsBefore(items, i + 1) == IdsBefore(items, i) + {items[i].id} && items[i].id !in IdsBefore(items, i)
    ensures IdsBefore(items, i + 1) <= ids && items[i].id in s.containers && items[i].container == s.containers[items[i].id]
  {
  }

  lemma IdsBeforeAll(s: State, ids: set<nat>, items: seq<Summary>)
    requires Lists(s, ids, items)
    ensures IdsBefore(items, |items|) == ids
  {
  }

  /** The containers `gone` of `s` are not in `t`, and nothing else happened to any container. */
  ghost predicate Removed(s: State, t: State, gone: set<nat>) {
    t.next == s.next && t.log == s.log && t.containers == s.containers - gone
  }

  /** An image that `Down` may take away: of a removed container, or a `dcx-` tag labelled for the folder. */
  ghost predicate MayRemoveImage(s: State, folder: string, ref: string) {
    || (exists id :: id in Devcontainers(s, folder) && s.containers[id].image == ref)
    || (HasPrefix(ref, "dcx-")
        && exists img :: img in s.images.Values && HasLabel(img.labels, DEVCONTAINER_LABEL, folder) && ref in img.tags)
  }

  ghost predicate OnlyOwnImages(s: State, folder: string, after: map<string, Image>) {
    && (forall ref :: ref in after ==> ref in s.images && after[ref] == s.images[ref])
    && (forall ref :: ref in s.images && ref !in after ==> MayRemoveImage(s, folder, ref))
  }

  /** Between stopping and removing the container `id`. */
  ghost predicate RemovedAndStopped(s: State, t: State, gone: set<nat>, id: nat) {
    && t.next == s.next && t.log == s.log && id in s.containers
    && (t.containers == s.containers - gone || t.containers == (s.containers - gone)[id := s.containers[id].(running := false)])
  }

  lemma RemovedShrinks(s: State, t: State, gone: set<nat>, ids: set<nat>, id: nat)
    requires gone <= ids && id in ids - gone && RemovedAndStopped(s, t, gone, id)
    ensures Shrinks(s, t, ids)
  {
  }

  /** `docker.Down`. */
  method Down(cli: Daemon, folder: string) returns (r: Result<(), DownError>)
    modifies cli
    ensures Shrinks(old(cli.st), cli.st, Devcontainers(old(cli.st), folder))
    ensures cli.st.volumes == old(cli.st).volumes && OnlyOwnImages(old(cli.st), folder, cli.st.images)
    ensures r.Success? ==> Removed(old(cli.st), cli.st, Devcontainers(old(cli.st), folder))
    // It succeeds if nothing prevents it; a reliable daemon then also loses the images, as far as no other container uses them.
    ensures cli.CanRemove(Devcontainers(old(cli.st), folder)) ==> r.Success?
    ensures cli.reliable && r.Success? ==> OwnImagesGone(old(cli.st), cli.st, Devcontainers(old(cli.st), folder))
    ensures cli.reliable && r.Success? && Devcontainers(old(cli.st), folder) != {} ==>
              forall ref :: ref in cli.st.images && HasLabel(cli.st.images[ref].labels, DEVCONTAINER_LABEL, folder) ==>
                var tags := cli.st.images[ref].tags;
                forall j :: 0 <= j < |tags| && HasPrefix(tags[j], "dcx-")
                            && (forall i :: 0 <= i < j ==> !HasPrefix(tags[i], "dcx-")) ==>
                  tags[j] !in cli.st.images || exists id :: id in cli.st.containers && cli.st.containers[id].image == tags[j]
    ensures StuckStay(cli.stuck, old(cli.st), cli.st)
  {
    ghost var s, ids := cli.st, Devcontainers(cli.st, folder);
    var containers := cli.ContainerList(DEVCONTAINER_LABEL, folder);
    if containers.Failure? {
      return Failure(ListFailed);
    }
    var items := containers.value;
    IdsBeforeAll(s, ids, items);
    assert OnlyOwnImages(s, folder, s.images);
    hide Labelled, HasLabel, OnlyOwnImages, OwnImagesGone, TaggedImagesGone;
    NothingGone(s);
    if |items| == 0 {
      return Success(());
    }
    assert items[0].id in ids;
    for i := 0 to |items|
      invariant Removed(s, cli.st, IdsBefore(items, i)) && cli.st.volumes == s.volumes
      invariant OnlyOwnImages(s, folder, cli.st.images)
      invariant cli.reliable ==> OwnImagesGone(s, cli.st, IdsBefore(items, i))
      invariant cli.stuck !! IdsBefore(items, i)
    {
      var id := items[i].id;
      ghost var gone := IdsBefore(items, i);
      IdsBeforeMore(s, ids, items, i);
      ghost var t := cli.st;
      var removed := RemoveDevcontainer(cli, s, folder, gone, id);
      if removed.Failure? {
        return removed;
      }
      if cli.reliable { OwnImagesStep(s, t, cli.st, gone, id); }
    }
    ghost var u := cli.st;
    RemoveTaggedImages(cli, folder, s);
    if cli.reliable {
      GoneKept(s, u, cli.st, ids);
      TaggedMeans(cli.st, folder);
    }
    return Success(());
  }

  /** One devcontainer: stopped, removed, and its image with it if nothing else uses that. */
  method RemoveDevcontainer(cli: Daemon, ghost s: State, folder: string, ghost gone: set<nat>, id: nat) returns (r: Result<(), DownError>)
    requires Removed(s, cli.st, gone) && id in s.containers && id !in gone && OnlyOwnImages(s, folder, cli.st.images)
    requires gone + {id} <= Devcontainers(s, folder)
    modifies cli
    ensures cli.st.volumes == old(cli.st).volumes && OnlyOwnImages(s, folder, cli.st.images)
    ensures r.Failure? ==> Shrinks(s, cli.st, Devcontainers(s, folder))
    ensures r.Success? ==> Removed(s, cli.st, gone + {id}) && cli.st.images.Keys <= old(cli.st).images.Keys
    ensures cli.reliable && id !in cli.stuck ==> r.Success?
    ensures r.Success? ==> id !in cli.stuck
    ensures r.Failure? ==> gone + cli.st.containers.Keys == gone + s.containers.Keys
    ensures cli.reliable && r.Success? ==> s.containers[id].image == "" || Gone(cli.st, s.containers[id].image)
  {
    hide Labelled, HasLabel, OnlyOwnImages;
    ghost var ids := Devcontainers(s, folder);
    var inspect := cli.ContainerInspect(id);
    if inspect.Failure? {
      RemovedShrinks(s, cli.st, gone, ids, id);
      return Failure(InspectFailed(id));
    }
    var imageID := inspect.value;
    var stopped := cli.ContainerStop(id);
    if stopped.Failure? {
      RemovedShrinks(s, cli.st, gone, ids, id);
      return Failure(StopFailed(id));
    }
    var removed := cli.ContainerRemove(id);
    if removed.Failure? {
      RemovedShrinks(s, cli.st, gone, ids, id);
      return Failure(RemoveFailed(id));
    }
    if imageID != "" {
      OwnImage(s, folder, cli.st.images, id);
      var _ := cli.ImageRemove(imageID);
    }
    assert cli.st.containers == s.containers - (gone + {id});
    return Success(());
  }

  /** The image is not there any more, or still needed. */
  ghost predicate Gone(t: State, ref: string) {
    ref !in t.images || ImageInUse(t, ref)
  }

  ghost predicate OwnImagesGone(s: State, t: State, ids: set<nat>) {
    forall id :: id in ids && id in s.containers && s.containers[id].image != "" ==> Gone(t, s.containers[id].image)
  }

  /** Of the images labelled for the folder, the first `dcx-` tag is gone. */
  ghost predicate TaggedImagesGone(t: State, folder: string) {
    forall ref :: ref in t.images && HasLabel(t.images[ref].labels, DEVCONTAINER_LABEL, folder) ==> TagGone(t, t.images[ref].tags)
  }

  /** The first of the tags that begins with `dcx-` is gone. */
  ghost predicate TagGone(t: State, tags: seq<string>) {
    forall j :: 0 <= j < |tags| && HasPrefix(tags[j], "dcx-") && (forall i :: 0 <= i < j ==> !HasPrefix(tags[i], "dcx-")) ==> Gone(t, tags[j])
  }

  lemma TaggedMeans(t: State, folder: string)
    requires TaggedImagesGone(t, folder)
    ensures forall ref :: ref in t.images && HasLabel(t.images[ref].labels, DEVCONTAINER_LABEL, folder) ==>
              var tags := t.images[ref].tags;
              forall j :: 0 <= j < |tags| && HasPrefix(tags[j], "dcx-") && (forall i :: 0 <= i < j ==> !HasPrefix(tags[i], "dcx-")) ==>
                tags[j] !in t.images || exists id :: id in t.containers && t.containers[id].image == tags[j]
  {
    hide HasLabel, HasPrefix;
  }

  lemma NothingGone(s: State)
    ensures OwnImagesGone(s, s, {})
  {
  }

  lemma OwnImagesStep(s: State, t: State, u: State, gone: set<nat>, id: nat)
    requires Removed(s, t, gone) && Removed(s, u, gone + {id}) && u.images.Keys <= t.images.Keys && id in s.containers
    requires OwnImagesGone(s, t, gone)
    requires s.containers[id].image == "" || Gone(u, s.containers[id].image)
    ensures OwnImagesGone(s, u, gone + {id})
  {
    forall k | k in gone && k in s.containers && s.containers[k].image != "" ensures Gone(u, s.containers[k].image) {
      var ref := s.containers[k].image;
      assert Gone(t, ref);
      if ref in t.images {
        var c :| c in t.containers && t.containers[c].image == ref;
        assert c != id ==> c in u.containers && u.containers[c].image == ref;
      }
    }
  }

  /** Losing more images, with the same containers. */
  lemma GoneKept(s: State, t: State, u: State, ids: set<nat>)
    requires OwnImagesGone(s, t, ids) && u.containers == t.containers && u.images.Keys <= t.images.Keys
    ensures OwnImagesGone(s, u, ids)
  {
    forall id | id in ids && id in s.containers && s.containers[id].image != "" ensures Gone(u, s.containers[id].image) {
      assert Gone(t, s.containers[id].image);
    }
  }

  lemma OwnImage(s: State, folder: string, images: map<string, Image>, id: nat)
    requires OnlyOwnImages(s, folder, images) && id in Devcontainers(s, folder)
    ensures OnlyOwnImages(s, folder, images - {s.containers[id].image})
  {
    assert id in s.containers;
    hide Labelled, HasLabel, HasPrefix;
    assert MayRemoveImage(s, folder, s.containers[id].image);
  }

  lemma TaggedImage(s: State, folder: string, images: map<string, Image>, img: Image, ref: string)
    requires OnlyOwnImages(s, folder, images)
    requires img in s.images.Values && HasLabel(img.labels, DEVCONTAINER_LABEL, folder) && ref in img.tags && HasPrefix(ref, "dcx-")
    ensures OnlyOwnImages(s, folder, images - {ref})
  {
    hide Labelled, HasLabel, HasPrefix;
    assert MayRemoveImage(s, folder, ref);
  }

  /** The images that dcx built for the folder: one `dcx-` tag each, best effort. */
  method RemoveTaggedImages(cli: Daemon, folder: string, ghost s: State)
    requires OnlyOwnImages(s, folder, cli.st.images)
    modifies cli
    ensures cli.st == old(cli.st).(images := cli.st.images) && cli.st.images.Keys <= old(cli.st).images.Keys
    ensures OnlyOwnImages(s, folder, cli.st.images)
    ensures cli.reliable ==> TaggedImagesGone(cli.st, folder)
  {
    ghost var t := cli.st;
    var images := cli.ImageList(DEVCONTAINER_LABEL, folder);
    if images.Failure? {
      return;
    }
    assert forall i :: 0 <= i < |images.value| ==> images.value[i] in s.images.Values;
    NoneLost(t);
    hide OnlyOwnImages, HasLabel, TagGone, TagsGone, TaggedImagesGone, ImagesLeft;
    for i := 0 to |images.value|
      invariant cli.st == t.(images := cli.st.images) && ImagesLeft(t, cli.st)
      invariant OnlyOwnImages(s, folder, cli.st.images)
      invariant cli.reliable ==> TagsGone(cli.st, images.value, i)
    {
      ghost var before := cli.st;
      RemoveFirstTag(cli, images.value[i], s, folder);
      LeftLess(t, before, cli.st);
      if cli.reliable { TagsStayGone(before, cli.st, images.value, i); }
    }
    LeftKeys(t, cli.st);
    if cli.reliable { AllTagged(t, cli.st, folder, images.value); }
  }

  ghost predicate TagsGone(t: State, items: seq<Image>, n: nat) {
    forall k :: 0 <= k < n && k < |items| ==> TagGone(t, items[k].tags)
  }

  lemma NoneLost(t: State)
    ensures ImagesLeft(t, t) && forall items :: TagsGone(t, items, 0)
  {
  }

  lemma LeftLess(s: State, t: State, u: State)
    requires ImagesLeft(s, t) && ImagesLeft(t, u)
    ensures ImagesLeft(s, u)
  {
  }

  lemma LeftKeys(s: State, t: State)
    requires ImagesLeft(s, t)
    ensures t.images.Keys <= s.images.Keys
  {
  }

  lemma TagsStayGone(t: State, u: State, items: seq<Image>, i: nat)
    requires i < |items| && TagsGone(t, items, i) && TagGone(u, items[i].tags)
    requires u.containers == t.containers && ImagesLeft(t, u)
    ensures TagsGone(u, items, i + 1)
  {
    hide TagGone, ImagesLeft;
    forall k | 0 <= k < i ensures TagGone(u, items[k].tags) { TagStaysGone(t, u, items[k].tags); }
  }

  lemma AllTagged(s: State, t: State, folder: string, items: seq<Image>)
    requires ImagesLeft(s, t) && TagsGone(t, items, |items|)
    requires forall ref :: ref in s.images && HasLabel(s.images[ref].labels, DEVCONTAINER_LABEL, folder) ==> s.images[ref] in items
    ensures TaggedImagesGone(t, folder)
  {
    hide HasLabel, TagGone;
  }

  /** Some images may have been removed. */
  ghost predicate ImagesLeft(s: State, t: State) {
    forall ref :: ref in t.images ==> ref in s.images && t.images[ref] == s.images[ref]
  }

  lemma TagStaysGone(t: State, u: State, tags: seq<string>)
    requires TagGone(t, tags) && u.containers == t.containers && ImagesLeft(t, u)
    ensures TagGone(u, tags)
  {
  }

  /** The inner loop: the first `dcx-` tag of one image. */
  method RemoveFirstTag(cli: Daemon, img: Image, ghost s: State, folder: string)
    requires OnlyOwnImages(s, folder, cli.st.images)
    requires img in s.images.Values && HasLabel(img.labels, DEVCONTAINER_LABEL, folder)
    modifies cli
    ensures cli.st == old(cli.st).(images := cli.st.images) && ImagesLeft(old(cli.st), cli.st)
    ensures OnlyOwnImages(s, folder, cli.st.images)
    ensures cli.reliable ==> TagGone(cli.st, img.tags)
  {
    hide OnlyOwnImages, HasPrefix, HasLabel;
    var j := 0;
    while j < |img.tags|
      invariant j <= |img.tags| && cli.st == old(cli.st)
      invariant forall i :: 0 <= i < j ==> !HasPrefix(img.tags[i], "dcx-")
    {
      if HasPrefix(img.tags[j], "dcx-") {
        TaggedImage(s, folder, cli.st.images, img, img.tags[j]);
        var _ := cli.ImageRemove(img.tags[j]);
        return;
      }
      j := j + 1;
    }
  }

  // ---------------------------------------------------------------------
  // compose.Stop and compose.Down

  /** `compose.Stop`. */
  method ComposeStop(cli: Daemon, project: string) returns (r: Result<(), DownError>)
    modifies cli
    ensures Shrinks(old(cli.st), cli.st, ProjectContainers(old(cli.st), project))
    ensures cli.st.containers.Keys == old(cli.st).containers.Keys
    ensures r.Success? ==> AllStopped(old(cli.st), cli.st, ProjectContainers(old(cli.st), project))
    ensures cli.st.volumes == old(cli.st).volumes && cli.st.images == old(cli.st).images
    ensures r != Failure(NoDevcontainer)
    ensures cli.reliable ==> r.Success?
  {
    ghost var s, ids := cli.st, ProjectContainers(cli.st, project);
    var containers := cli.ContainerList(PROJECT_LABEL, project);
    if containers.Failure? {
      return Failure(ListFailed);
    }
    var items := containers.value;
    hide Labelled, HasLabel;
    for i := 0 to |items|
      invariant AllStopped(s, cli.st, IdsBefore(items, i))
    {
      IdsBeforeMore(s, ids, items, i);
      if !items[i].container.running {
        continue;
      }
      var stopped := cli.ContainerStop(items[i].id);
      if stopped.Failure? {
        return Failure(StopFailed(items[i].id));
      }
    }
    IdsBeforeAll(s, ids, items);
    return Success(());
  }

  /** The volumes named in a list of mounts. */
  method VolumeNames(mounts: seq<MountPoint>, names0: set<string>) returns (names: set<string>)
    ensures forall name :: name in names <==> name in names0 || exists k :: 0 <= k < |mounts| && IsVolume(mounts[k], name)
  {
    names := names0;
    for k := 0 to |mounts|
      invariant forall name :: name in names <==> name in names0 || exists j :: 0 <= j < k && IsVolume(mounts[j], name)
    {
      if mounts[k].isVolume && mounts[k].name != "" {
        assert IsVolume(mounts[k], mounts[k].name);
        names := names + {mounts[k].name};
      }
    }
  }

  /** `compose.Down`. */
  method ComposeDown(cli: Daemon, project: string, removeVolumes: bool) returns (r: Result<(), DownError>)
    modifies cli
    ensures Shrinks(old(cli.st), cli.st, ProjectContainers(old(cli.st), project))
    ensures r.Success? ==> Removed(old(cli.st), cli.st, ProjectContainers(old(cli.st), project))
    ensures OnlyVolumesOf(old(cli.st), ProjectContainers(old(cli.st), project), old(cli.st).volumes, cli.st.volumes)
    ensures !removeVolumes ==> cli.st.volumes == old(cli.st).volumes
    ensures cli.st.images == old(cli.st).images
    ensures cli.CanRemove(ProjectContainers(old(cli.st), project)) ==> r.Success?
    ensures cli.reliable && r.Success? && removeVolumes ==> VolumesGone(old(cli.st), cli.st, ProjectContainers(old(cli.st), project))
    ensures StuckStay(cli.stuck, old(cli.st), cli.st)
  {
    ghost var s, ids := cli.st, ProjectContainers(cli.st, project);
    var containers := cli.ContainerList(PROJECT_LABEL, project);
    if containers.Failure? {
      return Failure(ListFailed);
    }
    var items := containers.value;
    IdsBeforeAll(s, ids, items);
    hide Labelled, HasLabel, IsVolume;
    if |items| == 0 {
      return Success(());
    }
    var volumeNames: set<string> := {};
    for i := 0 to |items|
      invariant Removed(s, cli.st, IdsBefore(items, i)) && cli.st.volumes == s.volumes && cli.st.images == s.images
      invariant if removeVolumes then NamesOf(s, IdsBefore(items, i), volumeNames) else volumeNames == {}
      invariant cli.stuck !! IdsBefore(items, i)
    {
      IdsBeforeMore(s, ids, items, i);
      if removeVolumes {
        MountedByMore(s, IdsBefore(items, i), items[i].id);
        volumeNames := VolumeNames(items[i].container.mounts, volumeNames);
      }
      hide Mounted;
      var removed := RemoveProjectContainer(cli, items[i], s, IdsBefore(items, i), ids);
      if removed.Failure? {
        return removed;
      }
    }
    ghost var t := cli.st;
    RemoveVolumes(cli, volumeNames);
    hide Mounted;
    if cli.reliable && removeVolumes { AllTried(s, t, cli.st, ids, volumeNames); }
    return Success(());
  }

  /** `names` are the volumes mounted by the containers `ids`. */
  ghost predicate NamesOf(s: State, ids: set<nat>, names: set<string>) {
    forall name :: name in names <==> Mounted(s, ids, name)
  }

  /** The volumes that the containers `ids` mounted are gone, or another container still uses them. */
  ghost predicate VolumesGone(s: State, t: State, ids: set<nat>) {
    forall name :: Mounted(s, ids, name) ==> VolumeGone(t, name)
  }

  ghost predicate VolumeGone(t: State, name: string) {
    name !in t.volumes || VolumeInUse(t, name)
  }

  lemma AllTried(s: State, t: State, u: State, ids: set<nat>, names: set<string>)
    requires NamesOf(s, ids, names) && forall name :: name in names ==> VolumeGone(u, name)
    ensures VolumesGone(s, u, ids)
  {
    hide Mounted, VolumeGone;
  }

  /** One container of a project: stopped if it was running, then removed; already gone is fine. */
  method RemoveProjectContainer(cli: Daemon, ctr: Summary, ghost s: State, ghost gone: set<nat>, ghost ids: set<nat>)
    returns (r: Result<(), DownError>)
    requires Removed(s, cli.st, gone) && gone <= ids && ctr.id in ids - gone
    requires ctr.id in s.containers && ctr.container == s.containers[ctr.id]
    modifies cli
    ensures r.Success? ==> Removed(s, cli.st, gone + {ctr.id}) && ctr.id !in cli.stuck
    ensures r.Failure? ==> Shrinks(s, cli.st, ids) && gone + cli.st.containers.Keys == gone + s.containers.Keys
    ensures cli.st.volumes == old(cli.st).volumes && cli.st.images == old(cli.st).images
    ensures cli.reliable && ctr.id !in cli.stuck ==> r.Success?
  {
    if ctr.container.running {
      var stopped := cli.ContainerStop(ctr.id);
      if stopped.Failure? {
        RemovedShrinks(s, cli.st, gone, ids, ctr.id);
        return Failure(StopFailed(ctr.id));
      }
    }
    var removed := cli.ContainerRemove(ctr.id);
    if removed.Failure? && removed.error != NotFound {
      RemovedShrinks(s, cli.st, gone, ids, ctr.id);
      return Failure(RemoveFailed(ctr.id));
    }
    assert cli.st.containers == s.containers - (gone + {ctr.id});
    return Success(());
  }

  /** Best effort, in any order. */
  method RemoveVolumes(cli: Daemon, names: set<string>)
    modifies cli
    ensures cli.st == old(cli.st).(volumes := cli.st.volumes)
    ensures old(cli.st).volumes - names <= cli.st.volumes <= old(cli.st).volumes
    ensures cli.reliable ==> forall name :: name in names ==> VolumeGone(cli.st, name)
  {
    hide Mounted;
    ghost var s := cli.st;
    var rest := names;
    while rest != {}
      invariant rest <= names
      invariant forall name :: VolumeInUse(cli.st, name) <==> VolumeInUse(s, name)
      invariant cli.reliable ==> forall name :: name in names - rest ==> VolumeGone(cli.st, name)
      invariant cli.st == old(cli.st).(volumes := cli.st.volumes)
      invariant old(cli.st).volumes - names <= cli.st.volumes <= old(cli.st).volumes
      decreases |rest|
    {
      var name :| name in rest;
      ghost var t := cli.st;
      var _ := cli.VolumeRemove(name);
      SameVolumeUse(t, cli.st);
      assert cli.reliable ==> VolumeGone(cli.st, name);
      assert names - (rest - {name}) == names - rest + {name};
      rest := rest - {name};
    }
  }

  lemma SameVolumeUse(s: State, t: State)
    requires t.containers == s.containers
    ensures forall name :: VolumeInUse(t, name) <==> VolumeInUse(s, name)
  {
    hide IsVolume;
    forall name ensures VolumeInUse(t, name) <==> VolumeInUse(s, name) {}
  }

  // ---------------------------------------------------------------------
  // Discovery

  /** The compose project of a container, if it has one. */
  function ProjectOf(labels: map<string, string>): Option<string> {
    if PROJECT_LABEL in labels && labels[PROJECT_LABEL] != "" then Some(labels[PROJECT_LABEL]) else None
  }

  /** The project of one of the containers `ids`. */
  ghost predicate IsProjectOf(s: State, ids: set<nat>, project: string) {
    exists id :: id in ids && id in s.containers && ProjectOf(s.containers[id].labels) == Some(project)
  }

  /** `FindProjectsAndVolumes`. */
  method FindProjectsAndVolumes(cli: Daemon, folder: string) returns (r: Result<(seq<string>, seq<string>), DownError>)
    ensures r.Success? ==>
              && Distinct(r.value.0) && Distinct(r.value.1)
              && (forall p :: p in r.value.0 <==> IsProjectOf(cli.st, Devcontainers(cli.st, folder), p))
              && (forall v :: v in r.value.1 <==> Mounted(cli.st, Devcontainers(cli.st, folder), v))
    ensures cli.reliable ==> r.Success?
  {
    ghost var s, ids := cli.st, Devcontainers(cli.st, folder);
    var containers := cli.ContainerList(DEVCONTAINER_LABEL, folder);
    if containers.Failure? {
      return Failure(ListFailed);
    }
    var items := containers.value;
    IdsBeforeAll(s, ids, items);
    hide Labelled, HasLabel, IsVolume, ProjectOf;
    var projects: seq<string>, volumes: seq<string> := [], [];
    for i := 0 to |items|
      invariant Distinct(projects) && Distinct(volumes)
      invariant forall p :: p in projects <==> IsProjectOf(s, IdsBefore(items, i), p)
      invariant forall v :: v in volumes <==> Mounted(s, IdsBefore(items, i), v)
    {
      IdsBeforeMore(s, ids, items, i);
      ProjectsMore(s, IdsBefore(items, i), items[i].id);
      MountedByMore(s, IdsBefore(items, i), items[i].id);
      hide Mounted, IsProjectOf;
      var project := ProjectOf(items[i].container.labels);
      if project.Some? && project.value !in projects {
        projects := projects + [project.value];
      }
      volumes := AppendVolumes(items[i].container.mounts, volumes);
    }
    return Success((projects, volumes));
  }

  lemma ProjectsMore(s: State, ids: set<nat>, id: nat)
    requires id in s.containers
    ensures forall p :: IsProjectOf(s, ids + {id}, p) <==> IsProjectOf(s, ids, p) || ProjectOf(s.containers[id].labels) == Some(p)
  {
    hide ProjectOf;
  }

  lemma MountedByMore(s: State, ids: set<nat>, id: nat)
    requires id in s.containers
    ensures forall v :: Mounted(s, ids + {id}, v)
                   <==> Mounted(s, ids, v) || exists k :: 0 <= k < |s.containers[id].mounts| && IsVolume(s.containers[id].mounts[k], v)
  {
    hide IsVolume;
  }

  /** The inner loop over the mounts of one container. */
  method AppendVolumes(mounts: seq<MountPoint>, volumes0: seq<string>) returns (volumes: seq<string>)
    requires Distinct(volumes0)
    ensures Distinct(volumes)
    ensures forall v :: v in volumes <==> v in volumes0 || exists k :: 0 <= k < |mounts| && IsVolume(mounts[k], v)
  {
    volumes := volumes0;
    for k := 0 to |mounts|
      invariant Distinct(volumes)
      invariant forall v :: v in volumes <==> v in volumes0 || exists j :: 0 <= j < k && IsVolume(mounts[j], v)
    {
      var m := mounts[k];
      if m.isVolume && m.name != "" {
        assert IsVolume(mounts[k], m.name);
        if m.name !in volumes {
          volumes := volumes + [m.name];
        }
      }
    }
  }

  /** Everything that belongs to a workspace: its devcontainers and the containers of their projects. */
  ghost function Stack(s: State, folder: string): set<nat> {
    set id | id in s.containers && InStack(s, folder, id)
  }

  ghost predicate InStack(s: State, folder: string, id: nat) {
    id in Devcontainers(s, folder)
    || exists p :: IsProjectOf(s, Devcontainers(s, folder), p) && id in ProjectContainers(s, p)
  }

  /** The stack by its labels: the folder's containers, and those of every compose project that one of them belongs to. */
  lemma StackMeans(s: State, folder: string, id: nat)
    ensures id in Stack(s, folder) <==>
              && id in s.containers
              && var labels := s.containers[id].labels;
                 || ("devcontainer.local_folder" in labels && labels["devcontainer.local_folder"] == folder)
                 || ("com.docker.compose.project" in labels && labels["com.docker.compose.project"] != ""
                     && exists k :: k in s.containers && OfBoth(s.containers[k].labels, folder, labels["com.docker.compose.project"]))
  {
    var own := Devcontainers(s, folder);
    forall p ensures IsProjectOf(s, own, p) <==> p != "" && exists k :: k in s.containers && OfBoth(s.containers[k].labels, folder, p) {
      if IsProjectOf(s, own, p) {
        var k :| k in own && k in s.containers && ProjectOf(s.containers[k].labels) == Some(p);
        assert OfBoth(s.containers[k].labels, folder, p);
      }
      if k :| k in s.containers && OfBoth(s.containers[k].labels, folder, p) { assert k in own; }
    }
    hide IsProjectOf, OfBoth;
    assert id in Stack(s, folder) <==> id in s.containers && InStack(s, folder, id);
    if id in s.containers {
      var labels := s.containers[id].labels;
      assert forall p :: id in ProjectContainers(s, p) <==> HasLabel(labels, "com.docker.compose.project", p);
      if "com.docker.compose.project" in labels {
        assert id in ProjectContainers(s, labels["com.docker.compose.project"]);
      }
    }
  }

  predicate OfBoth(labels: map<string, string>, folder: string, project: string) {
    && "devcontainer.local_folder" in labels && labels["devcontainer.local_folder"] == folder
    && "com.docker.compose.project" in labels && labels["com.docker.compose.project"] == project
  }

  /** `FindProjectContainers`: each container of the stack once. */
  method FindProjectContainers(cli: Daemon, folder: string) returns (r: Result<seq<Summary>, DownError>)
    ensures r.Success? ==> Lists(cli.st, Stack(cli.st, folder), r.value)
    ensures cli.reliable ==> r.Success?
  {
    ghost var s := cli.st;
    var devcontainers := cli.ContainerList(DEVCONTAINER_LABEL, folder);
    if devcontainers.Failure? {
      return Failure(ListFailed);
    }
    var all := AppendNew(s, [], {}, devcontainers.value, Devcontainers(s, folder));
    var found := FindProjectsAndVolumes(cli, folder);
    if found.Failure? {
      return Failure(ListFailed);
    }
    var projects := found.value.0;
    ghost var listed := {} + Devcontainers(s, folder);
    hide Labelled, HasLabel, Mounted;
    for i := 0 to |projects|
      invariant Lists(s, listed, all)
      invariant listed == Devcontainers(s, folder) + ContainersOf(s, projects[..i])
    {
      var items := cli.ContainerList(PROJECT_LABEL, projects[i]);
      if items.Failure? {
        return Failure(ListFailed);
      }
      all := AppendNew(s, all, listed, items.value, ProjectContainers(s, projects[i]));
      ContainersOfMore(s, projects, i);
      listed := listed + ProjectContainers(s, projects[i]);
    }
    assert projects[..|projects|] == projects;
    StackIs(s, folder, projects);
    return Success(all);
  }

  /** The containers of some projects. */
  ghost function ContainersOf(s: State, projects: seq<string>): set<nat> {
    set id | id in s.containers && exists i :: 0 <= i < |projects| && id in ProjectContainers(s, projects[i])
  }

  lemma ContainersOfMore(s: State, projects: seq<string>, i: nat)
    requires i < |projects|
    ensures ContainersOf(s, projects[..i + 1]) == ContainersOf(s, projects[..i]) + ProjectContainers(s, projects[i])
  {
    var front, more := projects[..i], projects[..i + 1];
    forall id ensures id in ContainersOf(s, more) <==> id in ContainersOf(s, front) || id in ProjectContainers(s, projects[i]) {
      if id in ContainersOf(s, front) {
        var k :| 0 <= k < |front| && id in ProjectContainers(s, front[k]);
        assert more[k] == front[k];
      }
      if id in ProjectContainers(s, projects[i]) { assert more[i] == projects[i]; }
    }
  }

  lemma StackIs(s: State, folder: string, projects: seq<string>)
    requires forall p :: p in projects <==> IsProjectOf(s, Devcontainers(s, folder), p)
    ensures Stack(s, folder) == Devcontainers(s, folder) + ContainersOf(s, projects)
  {
    hide HasLabel, IsProjectOf;
    assert Devcontainers(s, folder) <= s.containers.Keys;
  }

  lemma SeenIsListed(s: State, listed: set<nat>, all: seq<Summary>, seen: set<nat>)
    requires Lists(s, listed, all) && seen == set a | a in all :: a.id
    ensures seen == listed
  {
  }

  /** Appends the listed containers whose ID has not been seen. */
  method AppendNew(ghost s: State, all0: seq<Summary>, ghost listed: set<nat>, items: seq<Summary>, ghost ids: set<nat>)
    returns (all: seq<Summary>)
    requires Lists(s, listed, all0) && Lists(s, ids, items)
    ensures Lists(s, listed + ids, all)
  {
    all := all0;
    var seen := set a | a in all0 :: a.id;
    IdsBeforeAll(s, ids, items);
    assert IdsBefore(items, 0) == {} && listed + {} == listed;
    SeenIsListed(s, listed, all0, seen);
    for i := 0 to |items|
      invariant Lists(s, listed + IdsBefore(items, i), all)
      invariant forall id :: id in seen <==> id in listed + IdsBefore(items, i)
    {
      IdsBeforeMore(s, ids, items, i);
      hide Lists, IdsBefore;
      ghost var before := listed + IdsBefore(items, i);
      assert listed + IdsBefore(items, i + 1) == before + {items[i].id};
      if items[i].id !in seen {
        ListsMore(s, before, all, items[i].id);
        seen := seen + {items[i].id};
        all := all + [items[i]];
      } else {
        assert before + {items[i].id} == before;
      }
    }
  }

  // ---------------------------------------------------------------------
  // dcx stop

  lemma StoppedThen(s: State, t: State, u: State, ids: set<nat>, more: set<nat>)
    requires AllStopped(s, t, ids) && AllStopped(t, u, more)
    ensures AllStopped(s, u, ids + more)
  {
  }

  lemma StoppedShrinks(s: State, t: State, u: State, ids: set<nat>, more: set<nat>, all: set<nat>)
    requires AllStopped(s, t, ids) && Shrinks(t, u, more) && ids + more <= all
    ensures Shrinks(s, u, all)
  {
  }

  lemma StoppedProject(s: State, t: State, ids: set<nat>, projects: seq<string>, i: nat)
    requires AllStopped(s, t, ids) && i < |projects|
    ensures ProjectContainers(t, projects[i]) == ProjectContainers(s, projects[i]) <= ContainersOf(s, projects)
  {
    hide HasLabel;
    assert forall id :: id in ProjectContainers(s, projects[i]) ==> id in ContainersOf(s, projects);
  }

  lemma ContainersOfPrefix(s: State, projects: seq<string>, i: nat)
    requires i <= |projects|
    ensures ContainersOf(s, projects[..i]) <= ContainersOf(s, projects)
  {
    hide Labelled;
    forall id | id in ContainersOf(s, projects[..i]) ensures id in ContainersOf(s, projects) {
      var k :| 0 <= k < i && id in ProjectContainers(s, projects[..i][k]);
      assert projects[..i][k] == projects[k];
    }
  }

  /** The `dcx stop` sequence. */
  method RunStop(cli: Daemon, folder: string) returns (r: Result<(), DownError>)
    modifies cli
    // On success exactly the stack is stopped; whatever happens, nothing is removed and nothing outside it is touched.
    ensures r.Success? ==> Devcontainers(old(cli.st), folder) != {} && AllStopped(old(cli.st), cli.st, Stack(old(cli.st), folder))
    ensures Shrinks(old(cli.st), cli.st, Stack(old(cli.st), folder)) && cli.st.containers.Keys == old(cli.st).containers.Keys
    ensures cli.st.volumes == old(cli.st).volumes && cli.st.images == old(cli.st).images
    ensures r == Failure(NoDevcontainer) ==> Devcontainers(old(cli.st), folder) == {}
    ensures cli.reliable ==> r == if Devcontainers(old(cli.st), folder) == {} then Failure(NoDevcontainer) else Success(())
  {
    ghost var s, own, all := cli.st, Devcontainers(cli.st, folder), Stack(cli.st, folder);
    var found := FindProjectsAndVolumes(cli, folder);
    if found.Failure? {
      return Failure(ListFailed);
    }
    var projects := found.value.0;
    StackIs(s, folder, projects);
    assert ContainersOf(s, projects[..0]) == {};
    hide Stack, Labelled, HasLabel, ContainersOf, IsProjectOf, Mounted, Shrinks, AllStopped;
    var stopped := Stop(cli, folder);
    ShrinksMore(s, cli.st, own, all);
    if stopped.Failure? {
      return stopped;
    }
    ghost var t := cli.st;
    SameProjects(s, t, own, projects);
    stopped := StopProjects(cli, projects);
    StoppedShrinks(s, t, cli.st, own, ContainersOf(s, projects), all);
    if stopped.Failure? {
      return stopped;
    }
    StoppedThen(s, t, cli.st, own, ContainersOf(s, projects));
    return Success(());
  }

  lemma SameProjects(s: State, t: State, ids: set<nat>, projects: seq<string>)
    requires AllStopped(s, t, ids)
    ensures ContainersOf(t, projects) == ContainersOf(s, projects)
  {
    hide HasLabel;
    forall i | 0 <= i < |projects| ensures ProjectContainers(t, projects[i]) == ProjectContainers(s, projects[i]) {}
    hide Labelled;
  }

  /** Stopping the projects one after the other. */
  method StopProjects(cli: Daemon, projects: seq<string>) returns (r: Result<(), DownError>)
    modifies cli
    ensures r.Success? ==> AllStopped(old(cli.st), cli.st, ContainersOf(old(cli.st), projects))
    ensures Shrinks(old(cli.st), cli.st, ContainersOf(old(cli.st), projects)) && cli.st.containers.Keys == old(cli.st).containers.Keys
    ensures cli.st.volumes == old(cli.st).volumes && cli.st.images == old(cli.st).images
    ensures r != Failure(NoDevcontainer)
    ensures cli.reliable ==> r.Success?
  {
    ghost var s, all := cli.st, ContainersOf(cli.st, projects);
    assert ContainersOf(s, projects[..0]) == {};
    NothingStopped(s);
    hide Labelled, HasLabel, ContainersOf, Shrinks, AllStopped;
    for i := 0 to |projects|
      invariant AllStopped(s, cli.st, ContainersOf(s, projects[..i])) && cli.st.containers.Keys == s.containers.Keys
      invariant cli.st.volumes == s.volumes && cli.st.images == s.images
    {
      ghost var t, done := cli.st, ContainersOf(s, projects[..i]);
      StoppedProject(s, t, done, projects, i);
      ContainersOfPrefix(s, projects, i);
      var stopped := ComposeStop(cli, projects[i]);
      StoppedShrinks(s, t, cli.st, done, ProjectContainers(t, projects[i]), all);
      if stopped.Failure? {
        return stopped;
      }
      StoppedThen(s, t, cli.st, done, ProjectContainers(t, projects[i]));
      ContainersOfMore(s, projects, i);
    }
    assert projects[..|projects|] == projects;
    StoppedShrinksAll(s, cli.st, all);
    return Success(());
  }

  lemma NothingStopped(s: State)
    ensures AllStopped(s, s, {})
  {
  }

  lemma StoppedShrinksAll(s: State, t: State, ids: set<nat>)
    requires AllStopped(s, t, ids)
    ensures Shrinks(s, t, ids)
  {
  }

  // ---------------------------------------------------------------------
  // dcx down

  /** Tearing down the projects one after the other. */
  method DownProjects(cli: Daemon, projects: seq<string>, removeVolumes: bool) returns (r: Result<(), DownError>)
    modifies cli
    ensures Shrinks(old(cli.st), cli.st, ContainersOf(old(cli.st), projects))
    ensures r.Success? ==> Removed(old(cli.st), cli.st, ContainersOf(old(cli.st), projects))
    ensures OnlyVolumesOf(old(cli.st), ContainersOf(old(cli.st), projects), old(cli.st).volumes, cli.st.volumes)
    ensures !removeVolumes ==> cli.st.volumes == old(cli.st).volumes
    ensures cli.st.images == old(cli.st).images
    ensures cli.CanRemove(ContainersOf(old(cli.st), projects)) ==> r.Success?
    ensures cli.reliable && r.Success? && removeVolumes ==> VolumesGone(old(cli.st), cli.st, ContainersOf(old(cli.st), projects))
    ensures StuckStay(cli.stuck, old(cli.st), cli.st)
  {
    ghost var s, ids := cli.st, ContainersOf(cli.st, projects);
    NoVolumesYet(s);
    assert ContainersOf(s, projects[..0]) == {};
    for i := 0 to |projects|
      invariant Removed(s, cli.st, ContainersOf(s, projects[..i]))
      invariant OnlyVolumesOf(s, ids, s.volumes, cli.st.volumes)
      invariant !removeVolumes ==> cli.st.volumes == s.volumes
      invariant cli.st.images == s.images
      invariant cli.reliable && removeVolumes ==> VolumesGone(s, cli.st, ContainersOf(s, projects[..i]))
      invariant StuckStay(cli.stuck, s, cli.st)
    {
      ghost var t := cli.st;
      ProjectStep(s, t, projects, i);
      hide ContainersOf, Labelled, HasLabel, VolumesGone;
      var down := ComposeDown(cli, projects[i], removeVolumes);
      VolumesStep(s, t, ids, ProjectContainers(t, projects[i]), cli.st.volumes);
      if down.Failure? {
        ShrinksMore(t, cli.st, ProjectContainers(t, projects[i]), ids);
        ShrinksTransitive(s, t, cli.st, ids, ids);
        return down;
      }
      assert cli.st.containers == s.containers - ContainersOf(s, projects[..i + 1]);
      if cli.reliable && removeVolumes {
        VolumesGoneStep(s, t, cli.st, ContainersOf(s, projects[..i]), ProjectContainers(t, projects[i]));
      }
    }
    assert projects[..|projects|] == projects;
    return Success(());
  }

  lemma NoVolumesYet(s: State)
    ensures VolumesGone(s, s, {})
  {
  }

  /** Removing more containers with their volumes keeps the volumes gone that were in use by those. */
  lemma VolumesGoneStep(s: State, t: State, u: State, ids: set<nat>, some: set<nat>)
    requires Removed(s, t, ids) && Removed(t, u, some) && u.volumes <= t.volumes
    requires VolumesGone(s, t, ids) && VolumesGone(t, u, some)
    ensures VolumesGone(s, u, ids + some)
  {
    hide IsVolume;
    forall name | Mounted(s, ids + some, name) ensures VolumeGone(u, name) {
      if Mounted(t, some, name) {
        assert VolumeGone(u, name);
      } else {
        MountedEither(s, t, ids, some, name);
        assert VolumeGone(t, name);
        if VolumeInUse(t, name) { StillUsed(t, u, some, name); }
      }
    }
  }

  lemma MountedEither(s: State, t: State, ids: set<nat>, some: set<nat>, name: string)
    requires Removed(s, t, ids) && Mounted(s, ids + some, name)
    ensures Mounted(s, ids, name) || Mounted(t, some, name)
  {
    hide IsVolume;
    var id, k :| id in ids + some && id in s.containers && 0 <= k < |s.containers[id].mounts| && IsVolume(s.containers[id].mounts[k], name);
    if id !in ids { assert id in t.containers && t.containers[id] == s.containers[id]; }
  }

  lemma StillUsed(t: State, u: State, some: set<nat>, name: string)
    requires Removed(t, u, some) && VolumeInUse(t, name) && !Mounted(t, some, name)
    ensures VolumeInUse(u, name)
  {
    hide IsVolume;
    var id, k :| id in t.containers && 0 <= k < |t.containers[id].mounts| && IsVolume(t.containers[id].mounts[k], name);
    assert id !in some;
    assert id in u.containers && u.containers[id] == t.containers[id];
  }

  /** What the next project still has to lose. */
  lemma ProjectStep(s: State, t: State, projects: seq<string>, i: nat)
    requires i < |projects| && Removed(s, t, ContainersOf(s, projects[..i]))
    ensures Shrinks(s, t, ContainersOf(s, projects))
    ensures ProjectContainers(t, projects[i]) <= ContainersOf(s, projects)
    ensures ContainersOf(s, projects[..i + 1]) == ContainersOf(s, projects[..i]) + ProjectContainers(t, projects[i])
  {
    ContainersOfMore(s, projects, i);
    hide HasLabel;
    forall id | id in ContainersOf(s, projects[..i]) ensures id in ContainersOf(s, projects) {
      var k :| 0 <= k < i && id in ProjectContainers(s, projects[..i][k]);
      assert projects[..i][k] == projects[k];
    }
    assert forall id :: id in ProjectContainers(s, projects[i]) ==> id in ContainersOf(s, projects);
    assert ProjectContainers(t, projects[i]) == ProjectContainers(s, projects[i]) - ContainersOf(s, projects[..i]);
  }

  lemma VolumesStep(s: State, t: State, ids: set<nat>, some: set<nat>, after: set<string>)
    requires Shrinks(s, t, ids) && some <= ids
    requires OnlyVolumesOf(s, ids, s.volumes, t.volumes) && OnlyVolumesOf(t, some, t.volumes, after)
    ensures OnlyVolumesOf(s, ids, s.volumes, after)
  {
    hide Mounted;
    forall name | name in s.volumes - after ensures Mounted(s, ids, name) {
      if name in t.volumes { MountedMore(s, t, some, ids, name); }
    }
  }

  /** The `dcx down` sequence. */
  method RunDown(cli: Daemon, folder: string, removeVolumes: bool) returns (r: Result<(), DownError>)
    modifies cli
    // On success exactly the stack is gone; whatever happens, nothing outside it is touched.
    ensures r.Success? ==> Removed(old(cli.st), cli.st, Stack(old(cli.st), folder))
    ensures Shrinks(old(cli.st), cli.st, Stack(old(cli.st), folder))
    // Volumes go only when asked for, and only those the stack mounts.
    ensures OnlyVolumesOf(old(cli.st), Stack(old(cli.st), folder), old(cli.st).volumes, cli.st.volumes)
    ensures !removeVolumes ==> cli.st.volumes == old(cli.st).volumes
    // Images go only with the devcontainers, or by their dcx tag.
    ensures OnlyOwnImages(old(cli.st), folder, cli.st.images)
    // It succeeds if nothing prevents it, and gets as far as the folder's own containers if nothing prevents that.
    ensures cli.CanRemove(Stack(old(cli.st), folder)) ==> r.Success?
    ensures cli.CanRemove(Devcontainers(old(cli.st), folder)) ==> Devcontainers(old(cli.st), folder) !! cli.st.containers.Keys
    ensures StuckStay(cli.stuck, old(cli.st), cli.st)
    // On a reliable daemon volumes of the stack and images of the folder then go unless others use them.
    ensures cli.reliable && r.Success? && removeVolumes ==> VolumesGone(old(cli.st), cli.st, Stack(old(cli.st), folder))
    ensures cli.reliable && r.Success? ==> ImagesDropped(old(cli.st), cli.st, folder)
  {
    assert OnlyOwnImages(cli.st, folder, cli.st.images);
    hide OnlyOwnImages, VolumesGone, OwnImagesGone, TaggedImagesGone, ImagesDropped, Mounted;
    ghost var s, ids := cli.st, Stack(cli.st, folder);
    var found := FindProjectsAndVolumes(cli, folder);
    if found.Failure? {
      return Failure(ListFailed);
    }
    var (projects, volumes) := found.value;
    StackIs(s, folder, projects);
    ghost var own := Devcontainers(s, folder);
    hide Stack, Labelled, HasLabel, ContainersOf, IsProjectOf;
    var down := Down(cli, folder);
    ShrinksMore(s, cli.st, own, ids);
    if down.Failure? {
      return down;
    }
    ghost var t := cli.st;
    if cli.reliable { DroppedByDown(s, t, folder); }
    ContainersOfShrunk(s, t, own, projects);
    down := DownProjects(cli, projects, removeVolumes);
    ShrinksMore(t, cli.st, ContainersOf(t, projects), ids);
    ShrinksTransitive(s, t, cli.st, ids, ids);
    VolumesStep(s, t, ids, ContainersOf(t, projects), cli.st.volumes);
    if down.Failure? {
      return down;
    }
    assert cli.st.containers == s.containers - ids;
    if removeVolumes {
      OwnVolumes(s, own, ids, volumes);
      ghost var u := cli.st;
      RemoveListedVolumes(cli, volumes);
      if cli.reliable { StackVolumesGone(s, t, u, cli.st, own, ContainersOf(t, projects), volumes); }
    }
    if cli.reliable { DroppedKept(s, t, cli.st, folder); }
    return Success(());
  }

  /** The image is not there any more, or a container other than those of the folder used it in `s`. */
  ghost predicate Dropped(s: State, t: State, folder: string, ref: string) {
    ref !in t.images || exists id :: id in s.containers && id !in Devcontainers(s, folder) && s.containers[id].image == ref
  }

  /** The first of the tags that begins with `dcx-` is not there any more, or was used by another container. */
  ghost predicate TagDropped(s: State, t: State, folder: string, tags: seq<string>) {
    forall j :: 0 <= j < |tags| && HasPrefix(tags[j], "dcx-") && (forall i :: 0 <= i < j ==> !HasPrefix(tags[i], "dcx-")) ==>
      Dropped(s, t, folder, tags[j])
  }

  /** The images of the folder's containers and, unless there are none of these, the `dcx-` tags labelled for it. */
  ghost predicate ImagesDropped(s: State, t: State, folder: string) {
    && (forall id :: id in Devcontainers(s, folder) && s.containers[id].image != "" ==> Dropped(s, t, folder, s.containers[id].image))
    && (Devcontainers(s, folder) != {} ==>
          forall ref :: ref in t.images && HasLabel(t.images[ref].labels, DEVCONTAINER_LABEL, folder) ==>
            TagDropped(s, t, folder, t.images[ref].tags))
  }

  lemma GoneIsDropped(s: State, t: State, folder: string, ref: string)
    requires Removed(s, t, Devcontainers(s, folder)) && Gone(t, ref)
    ensures Dropped(s, t, folder, ref)
  {
    hide HasLabel;
    if ref in t.images {
      var id :| id in t.containers && t.containers[id].image == ref;
      assert id in s.containers && id !in Devcontainers(s, folder) && s.containers[id].image == ref;
    }
  }

  lemma DroppedByDown(s: State, t: State, folder: string)
    requires Removed(s, t, Devcontainers(s, folder)) && OwnImagesGone(s, t, Devcontainers(s, folder))
    requires Devcontainers(s, folder) != {} ==> TaggedImagesGone(t, folder)
    ensures ImagesDropped(s, t, folder)
  {
    hide HasLabel, Gone, Dropped, HasPrefix;
    forall ref | Gone(t, ref) ensures Dropped(s, t, folder, ref) { GoneIsDropped(s, t, folder, ref); }
    forall tags | TagGone(t, tags) ensures TagDropped(s, t, folder, tags) {}
    hide TagGone, TagDropped;
  }

  lemma DroppedKept(s: State, t: State, u: State, folder: string)
    requires ImagesDropped(s, t, folder) && u.images == t.images
    ensures ImagesDropped(s, u, folder)
  {
    hide HasLabel, HasPrefix, Devcontainers;
  }

  lemma ContainersOfShrunk(s: State, t: State, own: set<nat>, projects: seq<string>)
    requires Shrinks(s, t, own) && t.containers == s.containers - own
    ensures ContainersOf(t, projects) == ContainersOf(s, projects) - own
  {
    forall i | 0 <= i < |projects| ensures ProjectContainers(t, projects[i]) == ProjectContainers(s, projects[i]) - own {}
    hide Labelled;
  }

  lemma OwnVolumes(s: State, own: set<nat>, ids: set<nat>, volumes: seq<string>)
    requires own <= ids && forall v :: v in volumes ==> Mounted(s, own, v)
    ensures forall v :: v in volumes ==> Mounted(s, ids, v)
  {
    hide IsVolume;
  }

  /** The volumes of the projects are gone from `u`, then those of the devcontainers from `w`. */
  lemma StackVolumesGone(s: State, t: State, u: State, w: State, own: set<nat>, rest: set<nat>, volumes: seq<string>)
    requires Removed(s, t, own) && VolumesGone(t, u, rest)
    requires w.containers == u.containers && w.volumes <= u.volumes
    requires forall v :: Mounted(s, own, v) ==> v in volumes
    requires forall v :: v in volumes ==> VolumeGone(w, v)
    ensures VolumesGone(s, w, own + rest)
  {
    hide Mounted;
    SameVolumeUse(u, w);
    forall name | Mounted(s, own + rest, name) ensures VolumeGone(w, name) {
      MountedEither(s, t, own, rest, name);
      if Mounted(t, rest, name) { assert VolumeGone(u, name); }
    }
  }

  method RemoveListedVolumes(cli: Daemon, names: seq<string>)
    modifies cli
    ensures cli.st == old(cli.st).(volumes := cli.st.volumes)
    ensures cli.st.volumes <= old(cli.st).volumes && forall v :: v in old(cli.st).volumes - cli.st.volumes ==> v in names
    ensures cli.reliable ==> forall v :: v in names ==> VolumeGone(cli.st, v)
  {
    hide Mounted;
    ghost var s := cli.st;
    for i := 0 to |names|
      invariant cli.st == old(cli.st).(volumes := cli.st.volumes)
      invariant cli.st.volumes <= old(cli.st).volumes && forall v :: v in old(cli.st).volumes - cli.st.volumes ==> v in names
      invariant forall name :: VolumeInUse(cli.st, name) <==> VolumeInUse(s, name)
      invariant cli.reliable ==> forall k :: 0 <= k < i ==> VolumeGone(cli.st, names[k])
    {
      ghost var t := cli.st;
      var _ := cli.VolumeRemove(names[i]);
      SameVolumeUse(t, cli.st);
    }
  }

  // ---------------------------------------------------------------------
  // Trying again

  /** Discovery still leads to the container: it is labelled for the folder, or a labelled one is in its project. */
  ghost predicate StillFound(t: State, folder: string, id: nat)
    requires id in t.containers
  {
    || id in Devcontainers(t, folder)
    || exists d :: d in Devcontainers(t, folder) && SameProject(t.containers[d].labels, t.containers[id].labels)
  }

  predicate SameProject(a: map<string, string>, b: map<string, string>) {
    ProjectOf(a).Some? && ProjectOf(a) == ProjectOf(b)
  }

  lemma StackIsFound(t: State, folder: string, id: nat)
    requires id in t.containers
    ensures id in Stack(t, folder) <==> StillFound(t, folder, id)
  {
    if p :| IsProjectOf(t, Devcontainers(t, folder), p) && id in ProjectContainers(t, p) {
      var d :| d in Devcontainers(t, folder) && d in t.containers && ProjectOf(t.containers[d].labels) == Some(p);
      assert SameProject(t.containers[d].labels, t.containers[id].labels);
    }
    if d :| d in Devcontainers(t, folder) && SameProject(t.containers[d].labels, t.containers[id].labels) {
      var p := ProjectOf(t.containers[d].labels).value;
      assert IsProjectOf(t, Devcontainers(t, folder), p) && id in ProjectContainers(t, p);
    }
  }

  /**
   A `dcx down` that failed in `t` and is then repeated with success completes the
   removal exactly when discovery still leads to every container that was left.
   */
  lemma RetryCompletesIff(s: State, t: State, u: State, folder: string)
    requires Shrinks(s, t, Stack(s, folder)) && Removed(t, u, Stack(t, folder))
    ensures Removed(s, u, Stack(s, folder))
       <==> forall id :: id in Stack(s, folder) && id in t.containers ==> StillFound(t, folder, id)
  {
    forall id | id in t.containers ensures id in Stack(t, folder) <==> StillFound(t, folder, id) {
      StackIsFound(t, folder, id);
    }
    StackShrinks(s, t, folder);
    hide Stack, StillFound;
    if forall id :: id in Stack(s, folder) && id in t.containers ==> StillFound(t, folder, id) {
      assert u.containers == s.containers - Stack(s, folder);
    }
  }

  lemma StackShrinks(s: State, t: State, folder: string)
    requires Shrinks(s, t, Stack(s, folder))
    ensures Stack(t, folder) <= Stack(s, folder)
  {
    hide HasLabel;
    forall id | id in t.containers ensures t.containers[id].labels == s.containers[id].labels {}
    forall id | id in Stack(t, folder) ensures id in Stack(s, folder) {
      if id !in Devcontainers(t, folder) {
        var p :| IsProjectOf(t, Devcontainers(t, folder), p) && id in ProjectContainers(t, p);
        assert IsProjectOf(s, Devcontainers(s, folder), p) && id in ProjectContainers(s, p);
      }
    }
  }

  /** Once the folder's own containers are gone, trying again reports success and removes nothing. */
  lemma RetryFindsNothing(t: State, u: State, folder: string)
    requires Devcontainers(t, folder) == {} && Removed(t, u, Stack(t, folder))
    ensures u.containers == t.containers
  {
    assert Stack(t, folder) == {};
    hide Stack;
    assert t.containers - {} == t.containers;
  }

  /**
   Repeating a failed `dcx down` completes it in every case exactly for the stacks
   that consist of the folder's own containers.
   */
  lemma RetryAlwaysCompletesIff(s: State, folder: string)
    ensures Stack(s, folder) == Devcontainers(s, folder)
       <==> forall t, u :: Shrinks(s, t, Stack(s, folder)) && Removed(t, u, Stack(t, folder)) ==> Removed(s, u, Stack(s, folder))
  {
    var own, ids := Devcontainers(s, folder), Stack(s, folder);
    if ids == own {
      forall t, u | Shrinks(s, t, ids) && Removed(t, u, Stack(t, folder)) ensures Removed(s, u, ids) {
        RetryCompletesIff(s, t, u, folder);
        hide HasLabel, Stack;
      }
    } else {
      var t := OwnRemoved(s, folder);
      hide Stack, Labelled;
      assert !Removed(s, t, ids);
    }
  }

  /** The state in which only the folder's own containers have been removed: there trying again changes nothing. */
  lemma OwnRemoved(s: State, folder: string) returns (t: State)
    ensures Shrinks(s, t, Stack(s, folder)) && Removed(t, t, Stack(t, folder))
    ensures t.containers == s.containers - Devcontainers(s, folder)
    ensures Stack(s, folder) != Devcontainers(s, folder) ==> t.containers != s.containers - Stack(s, folder)
  {
    var own := Devcontainers(s, folder);
    t := s.(containers := s.containers - own);
    assert Devcontainers(t, folder) == {};
    assert Stack(t, folder) == {};
    assert t.containers - {} == t.containers;
    hide HasLabel, IsProjectOf;
    assert own <= Stack(s, folder) <= s.containers.Keys;
    if Stack(s, folder) != own {
      assert Stack(s, folder) == own + (Stack(s, folder) - own);
      var id :| id in Stack(s, folder) - own;
      assert id in t.containers;
    }
  }

  /**
   When a container of the stack other than the folder's own cannot be removed,
   `dcx down` fails; repeating it reports success, and the container is still there.
   */
  method RetryLeavesRest(cli: Daemon, folder: string, removeVolumes: bool)
    returns (first: Result<(), DownError>, second: Result<(), DownError>)
    requires cli.CanRemove(Devcontainers(cli.st, folder)) && !cli.CanRemove(Stack(cli.st, folder))
    modifies cli
    ensures first.Failure? && second.Success?
    ensures cli.stuck * Stack(old(cli.st), folder) <= cli.st.containers.Keys
    ensures Devcontainers(cli.st, folder) == {} && cli.stuck * Stack(old(cli.st), folder) != {}
  {
    ghost var s := cli.st;
    assert Stack(s, folder) <= s.containers.Keys;
    ghost var k :| k in cli.stuck && k in Stack(s, folder);
    assert k in cli.stuck * Stack(s, folder);
    hide Stack, OnlyVolumesOf, OnlyOwnImages, VolumesGone, ImagesDropped, HasLabel;
    first := RunDown(cli, folder, removeVolumes);
    ghost var t := cli.st;
    ShrinksLabelled(s, t, Stack(s, folder), DEVCONTAINER_LABEL, folder);
    EmptyStack(t, folder);
    hide Labelled;
    second := RunDown(cli, folder, removeVolumes);
    RetryFindsNothing(t, cli.st, folder);
    assert Devcontainers(cli.st, folder) == Devcontainers(t, folder) by { SameContainers(t, cli.st, folder); }
  }

  lemma EmptyStack(t: State, folder: string)
    requires Devcontainers(t, folder) == {}
    ensures Stack(t, folder) == {}
  {
  }

  lemma SameContainers(t: State, u: State, folder: string)
    requires u.containers == t.containers
    ensures Devcontainers(u, folder) == Devcontainers(t, folder)
  {
  }

  /** Such a stack: two containers of a project, of which the one without the folder's label cannot be removed. */
  method HalfRemoved(folder: string) returns (cli: Daemon)
    ensures cli.CanRemove(Devcontainers(cli.st, folder)) && !cli.CanRemove(Stack(cli.st, folder)) && fresh(cli)
  {
    var both := map[PROJECT_LABEL := "p"][DEVCONTAINER_LABEL := folder];
    var own, other := Container(both, false, [], ""), Container(map[PROJECT_LABEL := "p"], false, [], "");
    var s := State(map[0 := own, 1 := other], 2, {}, map[], []);
    HalfStack(folder, s);
    cli := new Daemon(s, true, {1});
  }

  lemma HalfStack(folder: string, s: State)
    requires s.containers.Keys == {0, 1}
    requires s.containers[0].labels == map[PROJECT_LABEL := "p"][DEVCONTAINER_LABEL := folder]
    requires s.containers[1].labels == map[PROJECT_LABEL := "p"]
    ensures Devcontainers(s, folder) == {0} && Stack(s, folder) == {0, 1}
  {
    assert DEVCONTAINER_LABEL[0] == 'd' && PROJECT_LABEL[0] == 'c';
    assert ProjectOf(s.containers[0].labels) == Some("p");
    assert 0 in Devcontainers(s, folder) && 1 in ProjectContainers(s, "p");
    assert IsProjectOf(s, Devcontainers(s, folder), "p");
  }
}
