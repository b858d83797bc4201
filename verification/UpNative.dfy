/**
 `Up` for projects without compose (devcontainer/up.go): reuse, restart, rebuild
 or create the container of a workspace folder, then run its lifecycle commands.
 */
module UpNative {
  import opened Wrappers
  import opened FeatureData
  import opened Vars
  import opened Metadata
  import opened MountSpec
  import opened DockerModel
  import opened Teardown
  import opened Lifecycle

  datatype UpError =
    | BadWorkspaceMount(reason: MountError) | ListingFailed
    | StoppingFailed(id: nat) | RemovingFailed(id: nat) | CreateFailed | StartFailed(id: nat) | WaitFailed(id: nat)

  type UpResult = Result<nat, UpError>

  const MANAGED_LABEL := "dcx.managed"

  /** The labels that tie a container to its folder; two more carry information only. */
  function ContainerLabels(folder: string): map<string, string> {
    map[MANAGED_LABEL := "true"][DEVCONTAINER_LABEL := folder]
  }

  function CommandsOf(cfg: Config): (c: ConfigCommands)
    reads cfg
    ensures c.onCreate == cfg.onCreateCommand && c.updateContent == cfg.updateContentCommand
    ensures c.postCreate == cfg.postCreateCommand && c.postStart == cfg.postStartCommand
  {
    ConfigCommands(cfg.onCreateCommand, cfg.updateContentCommand, cfg.postCreateCommand, cfg.postStartCommand)
  }

  /** What a run of `Up` did besides its result: the existing container it dealt with, the commands, and their source. */
  datatype Trace = Trace(picked: Option<nat>, events: seq<ExecEvent>, meta: ImageMeta)

  // ---------------------------------------------------------------------
  // What Up may do

  /** Containers other than the picked one stay as they are; the picked one may go only in a rebuild. */
  ghost predicate OthersKept(s: State, t: State, own: set<nat>, rebuild: bool, picked: Option<nat>) {
    && t.volumes == s.volumes && t.images == s.images
    && (picked.None? ==> own == {} || t == s)
    && (picked.Some? ==> picked.value in own && picked.value in s.containers)
    && (forall id :: id in s.containers && picked != Some(id) ==> id in t.containers && t.containers[id] == s.containers[id])
    && (picked.Some? && picked.value in t.containers ==>
          t.containers[picked.value] == s.containers[picked.value].(running := t.containers[picked.value].running))
    && (picked.Some? && picked.value !in t.containers ==> rebuild)
  }

  /** The next ID was given to a new container. */
  ghost predicate Created(s: State, t: State) {
    t.next == s.next + 1
  }

  /** At most one container is new, it belongs to the folder, and no older one that was picked is left beside it. */
  ghost predicate AtMostOneNew(s: State, t: State, folder: string, own: set<nat>, picked: Option<nat>) {
    if Created(s, t) then
      && t.containers.Keys <= s.containers.Keys + {s.next}
      && s.next in t.containers && HasLabel(t.containers[s.next].labels, DEVCONTAINER_LABEL, folder)
      && (own == {} || (picked.Some? && picked.value !in t.containers))
    else t.next == s.next && t.containers.Keys <= s.containers.Keys
  }

  /** Which commands were executed, and in which container. */
  ghost predicate CommandsRun(s: State, t: State, own: set<nat>, rebuild: bool, c: ConfigCommands, workdir: string,
                              r: UpResult, trace: Trace) {
    && t.log == s.log + trace.events
    && match r
       case Failure(_) => trace.events == []
       case Success(id) =>
         t.Running(id) &&
         if rebuild || own == {} then
           && Created(s, t) && id == s.next
           && exists ok :: Executes(trace.events, FullPlan(trace.meta, c), id, workdir, ok)
         else
           && !Created(s, t) && trace.picked == Some(id) && id in s.containers
           && if s.Running(id) then t == s
              else exists ok :: Executes(trace.events, StartPlan(trace.meta, c), id, workdir, ok)
  }

  /** How starting the stopped container `id` again can fail. */
  ghost predicate RestartFailsAs(s: State, t: State, id: nat, e: UpError) {
    match e
    case StartFailed(k) => k == id && t == s
    case WaitFailed(k) => k == id && id in s.containers && exists running :: t == s.WithRunning(id, running)
    case _ => false
  }

  /** How creating a container can fail: before there is one, or with a container that was not started or not seen running. */
  ghost predicate CreateFailsAs(s: State, t: State, e: UpError) {
    match e
    case CreateFailed => t == s
    case StartFailed(k) => k == s.next && Created(s, t) && k in t.containers && !t.Running(k)
    case WaitFailed(k) => k == s.next && Created(s, t) && k in t.containers
    case _ => false
  }

  /** `u` is the state in which a container is created: nothing was there, or the picked container has been removed. */
  ghost predicate ReadyToCreate(s: State, u: State, own: set<nat>, rebuild: bool, picked: Option<nat>) {
    if picked.None? then own == {} && u == s
    else rebuild && picked.value in own && u == s.(containers := s.containers - {picked.value})
  }

  /** Each failure belongs to one phase, names its container, and tells the state it leaves. */
  ghost predicate FailsAs(s: State, t: State, own: set<nat>, rebuild: bool, picked: Option<nat>, e: UpError) {
    match e
    case BadWorkspaceMount(_) => t == s && picked.None?
    case ListingFailed => t == s && picked.None?
    case StoppingFailed(id) => rebuild && picked == Some(id) && id in own && t == s
    case RemovingFailed(id) => rebuild && picked == Some(id) && id in own && id in s.containers && t == s.WithRunning(id, false)
    case _ =>
      || (!rebuild && picked.Some? && picked.value in own && !s.Running(picked.value) && RestartFailsAs(s, t, picked.value, e))
      || exists u :: ReadyToCreate(s, u, own, rebuild, picked) && CreateFailsAs(u, t, e)
  }

  ghost predicate UpSpec(s: State, t: State, folder: string, rebuild: bool, c: ConfigCommands, workdir: string, r: UpResult, trace: Trace) {
    var own := Devcontainers(s, folder);
    && OthersKept(s, t, own, rebuild, trace.picked)
    && AtMostOneNew(s, t, folder, own, trace.picked)
    && CommandsRun(s, t, own, rebuild, c, workdir, r, trace)
    && (r.Failure? ==> FailsAs(s, t, own, rebuild, trace.picked, r.error))
  }

  const NO_META := ImageMeta(false, false, [], [], "", [], [], [], [], [], [], map[])

  /** The metadata of an image; none when it cannot be inspected. */
  ghost predicate MetaOf(s: State, reliable: bool, imageRef: string, m: ImageMeta) {
    if imageRef in s.images then
      m == Combined(Named(EntriesOf(s.images[imageRef].metadata))) || (m == NO_META && !reliable)
    else m == NO_META
  }

  ghost predicate MetaUsed(s: State, reliable: bool, imageRef: string, host: Host, workdir: string, used: ImageMeta) {
    exists m :: MetaOf(s, reliable, imageRef, m) && used == SubstituteMeta(m, host, workdir)
  }

  // ---------------------------------------------------------------------
  // Steps

  /** `extractImageMetadata` and `substitute`. */
  method LoadMeta(cli: Daemon, imageRef: string, host: Host, workdir: string) returns (meta: ImageMeta)
    ensures MetaUsed(cli.st, cli.reliable, imageRef, host, workdir, meta)
  {
    meta := NO_META;
    var inspect := cli.ImageInspect(imageRef);
    if inspect.Success? {
      meta := ExtractImageMetadata(inspect.value);
    }
    ghost var m := meta;
    hide SubstituteMeta, Combined, Named, EntriesOf;
    assert MetaOf(cli.st, cli.reliable, imageRef, m);
    meta := SubstituteInPlace(meta, host, workdir);
  }

  /** The commands that `Up` works with come from the label's entries, with their texts substituted. */
  lemma MetaUsedMeans(s: State, reliable: bool, imageRef: string, host: Host, workdir: string, used: ImageMeta)
    requires MetaUsed(s, reliable, imageRef, host, workdir, used)
    ensures exists m :: MetaSubstituted(m, used, host, workdir)
                        && if imageRef in s.images && (reliable || m != NO_META) then ReadFrom(m, EntriesOf(s.images[imageRef].metadata))
                           else m == NO_META
  {
    hide SubstituteMeta, Combined, Named, EntriesOf, MetaSubstituted, ReadFrom;
    var m :| MetaOf(s, reliable, imageRef, m) && used == SubstituteMeta(m, host, workdir);
    SubstituteMetaMeans(m, host, workdir);
    if imageRef in s.images { CombinedMeans(EntriesOf(s.images[imageRef].metadata)); }
  }

  /** `removeExistingContainer`. */
  method RemoveExisting(cli: Daemon, id: nat) returns (r: Result<(), UpError>)
    modifies cli
    ensures r.Success? ==> id in old(cli.st).containers && cli.st == old(cli.st).(containers := old(cli.st).containers - {id})
    ensures r.Failure? ==> cli.st == old(cli.st) || (id in old(cli.st).containers && cli.st == old(cli.st).WithRunning(id, false))
    ensures r.Failure? ==>
              || (r.error == StoppingFailed(id) && cli.st == old(cli.st))
              || (r.error == RemovingFailed(id) && id in old(cli.st).containers && cli.st == old(cli.st).WithRunning(id, false))
    ensures cli.reliable && id in old(cli.st).containers && id !in cli.stuck ==> r.Success?
  {
    var stopped := cli.ContainerStop(id);
    if stopped.Failure? {
      return Failure(StoppingFailed(id));
    }
    var removed := cli.ContainerRemove(id);
    if removed.Failure? {
      return Failure(RemovingFailed(id));
    }
    assert cli.st.containers == old(cli.st).containers - {id};
    return Success(());
  }

  /** A stopped container is started again; only the post-start commands run. */
  method Restart(cli: Daemon, id: nat, imageRef: string, host: Host, c: ConfigCommands, workdir: string)
    returns (r: UpResult, ghost trace: Trace)
    requires id in cli.st.containers
    modifies cli
    ensures trace.picked == Some(id) && MetaUsed(old(cli.st), cli.reliable, imageRef, host, workdir, trace.meta)
    ensures exists running :: Ran(old(cli.st).WithRunning(id, running), cli.st, trace.events)
    ensures r.Failure? ==> trace.events == []
    ensures r.Success? ==> r.value == id && cli.st.Running(id)
                           && exists ok :: Executes(trace.events, StartPlan(trace.meta, c), id, workdir, ok)
    ensures r.Failure? ==> RestartFailsAs(old(cli.st), cli.st, id, r.error)
    ensures cli.reliable ==> r.Success?
  {
    ghost var s := cli.st;
    assert s.WithRunning(id, s.containers[id].running) == s by {
      assert s.containers[id := s.containers[id]] == s.containers;
    }
    hide Executes, StartPlan, SubstituteMeta, MetaOf;
    var meta := LoadMeta(cli, imageRef, host, workdir);
    trace := Trace(Some(id), [], meta);
    assert Ran(s.WithRunning(id, s.containers[id].running), cli.st, []);
    var started := cli.ContainerStart(id);
    if started.Failure? {
      return Failure(StartFailed(id)), trace;
    }
    ghost var running :| cli.st == s.WithRunning(id, running);
    assert Ran(s.WithRunning(id, running), cli.st, []);
    var waited := cli.WaitForRunning(id);
    if waited.Failure? {
      return Failure(WaitFailed(id)), trace;
    }
    ghost var events;
    var _, events' := RunPostStarts(cli, id, meta, c, workdir);
    events := events';
    trace := trace.(events := events);
    return Success(id), trace;
  }

  /** A container that dcx made for the folder from the image. */
  predicate Belongs(ctr: Container, folder: string, image: string) {
    HasLabel(ctr.labels, "devcontainer.local_folder", folder) && HasLabel(ctr.labels, "dcx.managed", "true") && ctr.image == image
  }

  /** A container of the folder is new, and commands have been executed. */
  ghost predicate NewContainer(s: State, t: State, folder: string, image: string, events: seq<ExecEvent>) {
    exists ctr: Container ::
      && Belongs(ctr, folder, image)
      && Ran(s.(containers := s.containers[s.next := ctr], next := s.next + 1), t, events)
  }

  lemma NewContainerIs(s: State, t: State, folder: string, ctr: Container)
    requires ctr.labels == ContainerLabels(folder)
    requires t == s.(containers := s.containers[s.next := ctr], next := s.next + 1)
    ensures NewContainer(s, t, folder, ctr.image, [])
  {
    assert Belongs(ctr, folder, ctr.image) by { assert MANAGED_LABEL[1] != DEVCONTAINER_LABEL[1]; }
    assert Ran(s.(containers := s.containers[s.next := ctr], next := s.next + 1), t, []);
  }

  lemma StartedIsNew(s: State, created: State, t: State, folder: string, ctr: Container)
    requires ctr.labels == ContainerLabels(folder)
    requires created == s.(containers := s.containers[s.next := ctr], next := s.next + 1)
    requires exists running :: t == created.WithRunning(s.next, running)
    ensures NewContainer(s, t, folder, ctr.image, [])
  {
    hide ContainerLabels, NewContainer;
    var running :| t == created.WithRunning(s.next, running);
    assert t.containers == s.containers[s.next := ctr.(running := running)];
    NewContainerIs(s, t, folder, ctr.(running := running));
  }

  lemma NewContainerRan(s: State, t: State, u: State, folder: string, image: string, events: seq<ExecEvent>)
    requires NewContainer(s, t, folder, image, []) && Ran(t, u, events)
    ensures NewContainer(s, u, folder, image, events)
  {
    hide Belongs;
    var ctr: Container :| Belongs(ctr, folder, image)
                          && Ran(s.(containers := s.containers[s.next := ctr], next := s.next + 1), t, []);
    assert s.log + [] + events == s.log + events;
    assert Ran(s.(containers := s.containers[s.next := ctr], next := s.next + 1), u, events);
  }

  lemma CreationRefused(s: State)
    ensures CreateFailsAs(s, s, CreateFailed)
  {
  }

  lemma NotStarted(s: State, made: State, ctr: Container)
    requires made == s.(containers := s.containers[s.next := ctr], next := s.next + 1) && !ctr.running
    ensures CreateFailsAs(s, made, StartFailed(s.next))
  {
  }

  lemma NotSeenRunning(s: State, made: State, t: State, ctr: Container)
    requires made == s.(containers := s.containers[s.next := ctr], next := s.next + 1)
    requires exists running :: t == made.WithRunning(s.next, running)
    ensures Created(s, t) && CreateFailsAs(s, t, WaitFailed(s.next))
  {
  }

  lemma CreatedRan(s: State, t: State, u: State, events: seq<ExecEvent>)
    requires Created(s, t) && Ran(t, u, events)
    ensures Created(s, u)
  {
  }

  /** A new container is created and started; then the whole chain runs. */
  method CreateNew(cli: Daemon, imageRef: string, host: Host, c: ConfigCommands, workdir: string) returns (r: UpResult, ghost trace: Trace)
    modifies cli
    ensures MetaUsed(old(cli.st), cli.reliable, imageRef, host, workdir, trace.meta)
    ensures cli.st == old(cli.st) || NewContainer(old(cli.st), cli.st, host.folder, imageRef, trace.events)
    ensures r.Failure? ==> trace.events == []
    ensures r.Success? ==> Created(old(cli.st), cli.st) && r.value == old(cli.st).next && cli.st.Running(r.value)
                           && exists ok :: Executes(trace.events, FullPlan(trace.meta, c), r.value, workdir, ok)
    ensures r.Failure? ==> CreateFailsAs(old(cli.st), cli.st, r.error)
    ensures cli.reliable ==> r.Success?
  {
    ghost var s := cli.st;
    hide Executes, FullPlan, MetaUsed, CreateFailsAs, Created;
    var meta := LoadMeta(cli, imageRef, host, workdir);
    trace := Trace(None, [], meta);
    CreationRefused(s);
    var mounts: seq<MountPoint> := *;
    var created := cli.ContainerCreate(ContainerLabels(host.folder), mounts, imageRef);
    if created.Failure? {
      return Failure(CreateFailed), trace;
    }
    var id := created.value;
    hide ContainerLabels, NewContainer;
    ghost var ctr := Container(ContainerLabels(host.folder), false, mounts, imageRef);
    NewContainerIs(s, cli.st, host.folder, ctr);
    ghost var made := cli.st;
    NotStarted(s, made, ctr);
    var started := cli.ContainerStart(id);
    if started.Failure? {
      return Failure(StartFailed(id)), trace;
    }
    StartedIsNew(s, made, cli.st, host.folder, ctr);
    NotSeenRunning(s, made, cli.st, ctr);
    var waited := cli.WaitForRunning(id);
    if waited.Failure? {
      return Failure(WaitFailed(id)), trace;
    }
    ghost var t := cli.st;
    var _, events := RunChain(cli, id, meta, c, workdir);
    trace := trace.(events := events);
    NewContainerRan(s, t, cli.st, host.folder, imageRef, events);
    CreatedRan(s, t, cli.st, events);
    return Success(id), trace;
  }

  // ---------------------------------------------------------------------
  // The steps put together

  lemma NothingDone(s: State, folder: string, rebuild: bool, c: ConfigCommands, workdir: string, e: UpError, trace: Trace)
    requires trace.picked == None && trace.events == [] && (e.BadWorkspaceMount? || e.ListingFailed?)
    ensures UpSpec(s, s, folder, rebuild, c, workdir, Failure(e), trace)
  {
    hide Labelled, HasLabel;
  }

  lemma Reused(s: State, folder: string, c: ConfigCommands, workdir: string, id: nat, trace: Trace)
    requires id in Devcontainers(s, folder) && s.Running(id)
    requires trace.picked == Some(id) && trace.events == []
    ensures UpSpec(s, s, folder, false, c, workdir, Success(id), trace)
  {
    hide HasLabel;
  }

  lemma Restarted(s: State, t: State, folder: string, c: ConfigCommands, workdir: string, id: nat, r: UpResult, trace: Trace)
    requires s.Valid() && id in Devcontainers(s, folder) && !s.Running(id) && trace.picked == Some(id)
    requires exists running :: Ran(s.WithRunning(id, running), t, trace.events)
    requires r.Failure? ==> trace.events == [] && RestartFailsAs(s, t, id, r.error)
    requires r.Success? ==> r.value == id && t.Running(id) && exists ok :: Executes(trace.events, StartPlan(trace.meta, c), id, workdir, ok)
    ensures UpSpec(s, t, folder, false, c, workdir, r, trace)
  {
    var own := Devcontainers(s, folder);
    assert r.Failure? ==> FailsAs(s, t, own, false, trace.picked, r.error) by { hide Labelled, HasLabel; }
    hide HasLabel, Executes, StartPlan, FailsAs, RestartFailsAs, CreateFailsAs;
  }

  lemma RebuildFailed(s: State, t: State, folder: string, c: ConfigCommands, workdir: string, id: nat, e: UpError, trace: Trace)
    requires id in Devcontainers(s, folder)
    requires (e == StoppingFailed(id) && t == s) || (e == RemovingFailed(id) && t == s.WithRunning(id, false))
    requires trace.picked == Some(id) && trace.events == []
    ensures UpSpec(s, t, folder, true, c, workdir, Failure(e), trace)
  {
    hide HasLabel;
  }

  lemma CreationFailed(s: State, u: State, t: State, own: set<nat>, rebuild: bool, r: UpResult, picked: Option<nat>)
    requires ReadyToCreate(s, u, own, rebuild, picked) && (r.Failure? ==> CreateFailsAs(u, t, r.error))
    ensures r.Failure? ==> FailsAs(s, t, own, rebuild, picked, r.error)
  {
    hide RestartFailsAs, ReadyToCreate;
  }

  /** Creation after nothing, or after the picked container has been removed. */
  lemma CreatedAfter(s: State, u: State, t: State, folder: string, image: string, rebuild: bool, c: ConfigCommands,
                     workdir: string, r: UpResult, trace: Trace)
    requires s.Valid()
    requires ReadyToCreate(s, u, Devcontainers(s, folder), rebuild, trace.picked)
    requires t == u || NewContainer(u, t, folder, image, trace.events)
    requires r.Failure? ==> trace.events == [] && CreateFailsAs(u, t, r.error)
    requires r.Success? ==> Created(u, t) && r.value == u.next && t.Running(r.value)
                            && exists ok :: Executes(trace.events, FullPlan(trace.meta, c), r.value, workdir, ok)
    ensures UpSpec(s, t, folder, rebuild, c, workdir, r, trace)
    ensures Created(s, t) ==> s.next in t.containers && Belongs(t.containers[s.next], folder, image)
  {
    CreationFailed(s, u, t, Devcontainers(s, folder), rebuild, r, trace.picked);
    hide HasLabel, Executes, FullPlan, FailsAs, CreateFailsAs, RestartFailsAs;
    assert s.next !in s.containers;
    if t == u && r.Failure? { assert trace.events == []; }
  }

  /** The commands executed for a result, in terms of the commands themselves. */
  ghost predicate CommandsMean(s: State, t: State, c: ConfigCommands, id: nat, trace: Trace) {
    && (forall i :: 0 <= i < |trace.events| ==> trace.events[i].container == id)
    && if Created(s, t) then ChainExecuted(trace.events, trace.meta, c)
       else
         && (forall i :: 0 <= i < |trace.events| ==> trace.events[i].stage == PostStart)
         && (t == s || StageExecuted(trace.events, PostStart, trace.meta.postStartCommands + [c.postStart]))
  }

  lemma UpMeans(s: State, t: State, folder: string, rebuild: bool, c: ConfigCommands, workdir: string, id: nat, trace: Trace)
    requires UpSpec(s, t, folder, rebuild, c, workdir, Success(id), trace)
    ensures CommandsMean(s, t, c, id, trace)
  {
    hide HasLabel, OthersKept, AtMostOneNew, FullPlan, StartPlan, ChainExecuted, StageExecuted, Labelled;
    if Created(s, t) {
      var ok :| Executes(trace.events, FullPlan(trace.meta, c), id, workdir, ok);
      ChainMeans(trace.events, trace.meta, c, id, workdir, ok);
    } else if s.Running(id) {
      NoEvents(s, t, trace.events);
    } else {
      var ok :| Executes(trace.events, StartPlan(trace.meta, c), id, workdir, ok);
      StartMeans(trace.events, trace.meta, c, id, workdir, ok);
    }
  }

  lemma NoEvents(s: State, t: State, events: seq<ExecEvent>)
    requires t == s && t.log == s.log + events
    ensures events == []
  {
    assert |t.log| == |s.log| + |events|;
  }

  predicate BadMount(mount: string) {
    mount != "" && ParsedMount(mount).Failure?
  }

  /** `Up`. */
  method Up(cli: Daemon, cfg: Config, host: Host, imageRef: string, rebuild: bool) returns (r: UpResult, ghost trace: Trace)
    requires cli.st.Valid()
    modifies cli, cfg`workspaceFolder, cfg`workspaceMount, cfg`mounts, cfg`containerEnv, cfg`runArgs
    ensures cfg.Content() == SubstitutedTexts(old(cfg.Content()), host)
    ensures UpSpec(old(cli.st), cli.st, host.folder, rebuild, CommandsOf(cfg), cfg.workspaceFolder, r, trace)
    ensures r.Success? ==> CommandsMean(old(cli.st), cli.st, CommandsOf(cfg), r.value, trace)
    // A new container is made from the image; the workspace mount is checked first of all.
    ensures Created(old(cli.st), cli.st) ==>
              old(cli.st).next in cli.st.containers && Belongs(cli.st.containers[old(cli.st).next], host.folder, imageRef)
    ensures BadMount(cfg.workspaceMount) <==> r.Failure? && r.error.BadWorkspaceMount?
    ensures BadMount(cfg.workspaceMount) ==> ParsedMount(cfg.workspaceMount) == Failure(r.error.reason)
    // If nothing prevents the removal of the folder's containers, there is no other way to fail.
    ensures cli.CanRemove(Devcontainers(old(cli.st), host.folder)) && !BadMount(cfg.workspaceMount) ==> r.Success?
    ensures trace.events != [] ==> MetaUsed(old(cli.st), cli.reliable, imageRef, host, cfg.workspaceFolder, trace.meta)
  {
    ghost var s := cli.st;
    cfg.SubstituteAll(host);
    var workdir := cfg.workspaceFolder;
    var c := CommandsOf(cfg);
    hide UpSpec, SubstitutedTexts, MetaUsed, RestartFailsAs, CommandsMean;
    trace := Trace(None, [], NO_META);
    if cfg.workspaceMount != "" {
      var mount := ParseMountString(cfg.workspaceMount);
      if mount.Failure? {
        NothingDone(s, host.folder, rebuild, c, workdir, BadWorkspaceMount(mount.error), trace);
        return Failure(BadWorkspaceMount(mount.error)), trace;
      }
    }
    var existing := cli.ContainerList(DEVCONTAINER_LABEL, host.folder);
    if existing.Failure? {
      NothingDone(s, host.folder, rebuild, c, workdir, ListingFailed, trace);
      return Failure(ListingFailed), trace;
    }
    var picked: Option<nat> := None;
    if |existing.value| > 0 {
      var ctr := existing.value[0];
      picked := Some(ctr.id);
      trace := trace.(picked := picked);
      assert ctr.id in Devcontainers(s, host.folder);
      if ctr.container.running {
        if !rebuild {
          Reused(s, host.folder, c, workdir, ctr.id, trace);
          UpMeans(s, s, host.folder, rebuild, c, workdir, ctr.id, trace);
          return Success(ctr.id), trace;
        }
      } else {
        if !rebuild {
          r, trace := Restart(cli, ctr.id, imageRef, host, c, workdir);
          Restarted(s, cli.st, host.folder, c, workdir, ctr.id, r, trace);
          if r.Success? { UpMeans(s, cli.st, host.folder, rebuild, c, workdir, ctr.id, trace); }
          return;
        }
      }
      var removed := RemoveExisting(cli, ctr.id);
      if removed.Failure? {
        RebuildFailed(s, cli.st, host.folder, c, workdir, ctr.id, removed.error, trace);
        return Failure(removed.error), trace;
      }
    }
    ghost var u := cli.st;
    assert ReadyToCreate(s, u, Devcontainers(s, host.folder), rebuild, picked);
    hide Labelled, CreateFailsAs, Created, ReadyToCreate;
    r, trace := CreateNew(cli, imageRef, host, c, workdir);
    trace := trace.(picked := picked);
    CreatedAfter(s, u, cli.st, host.folder, imageRef, rebuild, c, workdir, r, trace);
    if r.Success? { UpMeans(s, cli.st, host.folder, rebuild, c, workdir, r.value, trace); }
    MetaKept(s, u, cli.reliable, imageRef, host, workdir, trace.meta);
  }

  lemma MetaKept(s: State, u: State, reliable: bool, imageRef: string, host: Host, workdir: string, used: ImageMeta)
    requires u.images == s.images && MetaUsed(u, reliable, imageRef, host, workdir, used)
    ensures MetaUsed(s, reliable, imageRef, host, workdir, used)
  {
    hide SubstituteMeta, Combined, Named, EntriesOf;
    var m :| MetaOf(u, reliable, imageRef, m) && used == SubstituteMeta(m, host, workdir);
    assert MetaOf(s, reliable, imageRef, m);
  }

  /**
   From build to container: when the image carries the label written for the
   features `fs` in install order, `Up` works with exactly those features, in that order.
   */
  lemma BuiltFeaturesReachUp(s: State, imageRef: string, fs: seq<ResolvedFeature>, written: seq<LabelEntry>,
                             host: Host, workdir: string, used: ImageMeta)
    requires imageRef in s.images && s.images[imageRef].metadata == Entries(written)
    requires |written| == |fs| && forall i :: 0 <= i < |fs| ==> ReadsAs(written[i], fs[i].meta)
    requires forall i :: 0 <= i < |fs| ==> fs[i].meta.id != ""
    requires MetaUsed(s, true, imageRef, host, workdir, used)
    ensures used == SubstituteMeta(Combined(FeatureEntries(fs)), host, workdir)
    ensures exists m :: MetaSubstituted(m, used, host, workdir) && ReadFrom(m, FeatureEntries(fs))
  {
    hide SubstituteMeta, Combined, Named, EntriesOf, ReadsAs, FeatureEntries, MetaSubstituted, ReadFrom;
    WriteReadBack(fs, written);
    AllNamed(fs);
    CombinedMeans(FeatureEntries(fs));
    SubstituteMetaMeans(Combined(FeatureEntries(fs)), host, workdir);
  }
}
