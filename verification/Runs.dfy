/**
 Whole runs: any sequence of `Up`, `docker.Stop`, `docker.Down`, `dcx stop` and
 `dcx down` calls for any folders, each of which may fail anywhere, interleaved
 with what others do to the daemon between the calls.
 */
module Runs {
  import opened Wrappers
  import opened Collections
  import opened FeatureData
  import opened Vars
  import opened Metadata
  import opened DockerModel
  import opened Teardown
  import opened Lifecycle
  import opened UpNative

  datatype Action =
    | DoUp(folder: string, rebuild: bool, commands: ConfigCommands, workdir: string, result: UpResult, trace: Trace)
    | DoStop(folder: string)
    | DoDown(folder: string)
    | DoRunStop(folder: string)
    | DoRunDown(folder: string)
    | Others

  /** Others may start, stop and remove containers and create unlabelled ones; they do not relabel or execute lifecycle commands. */
  ghost predicate OthersActed(s: State, t: State) {
    && t.next >= s.next && t.log == s.log
    && forall id :: id in t.containers ==>
         if id in s.containers then t.containers[id].labels == s.containers[id].labels
         else s.next <= id < t.next && DEVCONTAINER_LABEL !in t.containers[id].labels
  }

  /** What the contracts of the operations say about one step. */
  ghost predicate Step(s: State, a: Action, t: State) {
    match a
    case DoUp(folder, rebuild, commands, workdir, result, trace) => UpSpec(s, t, folder, rebuild, commands, workdir, result, trace)
    case DoStop(folder) => Shrinks(s, t, Devcontainers(s, folder)) && t.containers.Keys == s.containers.Keys
    case DoDown(folder) => Shrinks(s, t, Devcontainers(s, folder))
    case DoRunStop(folder) => Shrinks(s, t, Stack(s, folder)) && t.containers.Keys == s.containers.Keys
    case DoRunDown(folder) => Shrinks(s, t, Stack(s, folder))
    case Others => OthersActed(s, t)
  }

  /** Commands have been executed only in containers that exist or existed. */
  ghost predicate LogValid(s: State) {
    forall i :: 0 <= i < |s.log| ==> s.log[i].container < s.next
  }

  ghost predicate Run(states: seq<State>, actions: seq<Action>) {
    && |states| == |actions| + 1
    && states[0].Valid() && LogValid(states[0])
    && forall i :: 0 <= i < |actions| ==> Step(states[i], actions[i], states[i + 1])
  }

  // ---------------------------------------------------------------------
  // One request carried out

  datatype Request =
    | RequestUp(texts: Texts, commands: ConfigCommands, host: Host, imageRef: string, rebuild: bool)
    | RequestStop(folder: string)
    | RequestDown(folder: string)
    | RequestRunStop(folder: string)
    | RequestRunDown(folder: string, removeVolumes: bool)

  /** Carrying out a request is a step. */
  method Execute(cli: Daemon, request: Request) returns (ghost a: Action)
    requires cli.st.Valid()
    modifies cli
    ensures Step(old(cli.st), a, cli.st)
  {
    hide UpSpec, Shrinks, MetaUsed;
    match request {
      case RequestUp(texts, c, host, imageRef, rebuild) =>
        var cfg := new Config(texts, c.onCreate, c.updateContent, c.postCreate, c.postStart);
        var r, trace := Up(cli, cfg, host, imageRef, rebuild);
        a := DoUp(host.folder, rebuild, CommandsOf(cfg), cfg.workspaceFolder, r, trace);
      case RequestStop(folder) =>
        var _ := Stop(cli, folder);
        a := DoStop(folder);
      case RequestDown(folder) =>
        var _ := Down(cli, folder);
        a := DoDown(folder);
      case RequestRunStop(folder) =>
        var _ := RunStop(cli, folder);
        a := DoRunStop(folder);
      case RequestRunDown(folder, removeVolumes) =>
        var _ := RunDown(cli, folder, removeVolumes);
        a := DoRunDown(folder);
    }
  }

  /** A session of requests is a run. */
  method Session(cli: Daemon, requests: seq<Request>) returns (ghost states: seq<State>, ghost actions: seq<Action>)
    requires cli.st.Valid() && LogValid(cli.st)
    modifies cli
    ensures Run(states, actions) && states[0] == old(cli.st) && states[|states| - 1] == cli.st
    ensures |actions| == |requests|
  {
    states, actions := [cli.st], [];
    for i := 0 to |requests|
      invariant |actions| == i && Run(states, actions)
      invariant states[0] == old(cli.st) && states[|states| - 1] == cli.st
      invariant cli.st.Valid()
    {
      ghost var s := cli.st;
      ghost var a := Execute(cli, requests[i]);
      StepValid(s, a, cli.st);
      hide Step, LogValid, State.Valid;
      states, actions := states + [cli.st], actions + [a];
    }
  }

  // ---------------------------------------------------------------------
  // Validity

  lemma StepValid(s: State, a: Action, t: State)
    requires s.Valid() && Step(s, a, t)
    ensures t.Valid() && t.next >= s.next
  {
    hide HasLabel, Executes, CommandsRun, Devcontainers, Stack;
  }

  lemma {:induction false} RunValid(states: seq<State>, actions: seq<Action>, i: nat)
    requires Run(states, actions) && i < |states|
    ensures states[i].Valid() && LogValid(states[i])
  {
    hide Step, LogValid, State.Valid;
    if i > 0 {
      RunValid(states, actions, i - 1);
      StepValid(states[i - 1], actions[i - 1], states[i]);
      StepLogValid(states[i - 1], actions[i - 1], states[i]);
    }
  }

  /** What a step adds to the log. */
  ghost function NewEvents(a: Action): seq<ExecEvent> {
    if a.DoUp? then a.trace.events else []
  }

  lemma StepLog(s: State, a: Action, t: State)
    requires Step(s, a, t)
    ensures t.log == s.log + NewEvents(a)
  {
    hide HasLabel, Executes, OthersKept, AtMostOneNew;
  }

  /** All events of a step happen in one container: the new one, or a restarted one. */
  lemma EventsIn(s: State, a: Action, t: State, i: nat)
    requires s.Valid() && Step(s, a, t) && i < |NewEvents(a)|
    ensures a.DoUp? && a.result.Success? && NewEvents(a)[i].container == a.result.value < t.next
    ensures a.result.value >= s.next ==> a.result.value == s.next && Created(s, t)
    ensures a.result.value < s.next ==> NewEvents(a)[i].stage == PostStart
  {
    CreationStages(a.trace.meta, a.commands);
    hide HasLabel, OthersKept, AtMostOneNew, CreationPlan, StartPlan, Devcontainers;
  }

  lemma StepLogValid(s: State, a: Action, t: State)
    requires s.Valid() && LogValid(s) && Step(s, a, t)
    ensures LogValid(t)
  {
    StepLog(s, a, t);
    StepValid(s, a, t);
    hide Step, State.Valid;
    forall i | 0 <= i < |t.log| ensures t.log[i].container < t.next {
      if i >= |s.log| { EventsIn(s, a, t, i - |s.log|); }
    }
  }

  // ---------------------------------------------------------------------
  // At most one container per folder

  function Max(a: nat, b: nat): nat {
    if a > b then a else b
  }

  /** One step never adds a second container to a folder. */
  lemma StepBound(s: State, a: Action, t: State, folder: string)
    requires s.Valid() && Step(s, a, t)
    ensures |Devcontainers(t, folder)| <= Max(1, |Devcontainers(s, folder)|)
  {
    var before, after := Devcontainers(s, folder), Devcontainers(t, folder);
    if a.DoUp? {
      UpBound(s, t, folder, a);
    } else {
      assert after <= before by {
        hide Stack, Devcontainers;
        StepShrinks(s, a, t, DEVCONTAINER_LABEL, folder);
      }
      SubsetSize(after, before);
    }
  }

  lemma StepShrinks(s: State, a: Action, t: State, key: string, folder: string)
    requires s.Valid() && Step(s, a, t) && !a.DoUp? && key == DEVCONTAINER_LABEL
    ensures Labelled(t, key, folder) <= Labelled(s, key, folder)
  {
    match a
    case DoStop(f) => ShrinksLabelled(s, t, Devcontainers(s, f), key, folder);
    case DoDown(f) => ShrinksLabelled(s, t, Devcontainers(s, f), key, folder);
    case DoRunStop(f) => ShrinksLabelled(s, t, Stack(s, f), key, folder);
    case DoRunDown(f) => ShrinksLabelled(s, t, Stack(s, f), key, folder);
    case Others =>
  }

  /** After `Up`, the folder's containers are the old ones, perhaps with the picked one exchanged for a new one. */
  lemma UpMembers(s: State, a: Action, t: State, folder: string)
    requires s.Valid() && a.DoUp? && Step(s, a, t)
    ensures Devcontainers(t, folder) <= Devcontainers(s, folder) + (if Created(s, t) && folder == a.folder then {s.next} else {})
  {
    hide CommandsRun;
    var own := Devcontainers(s, a.folder);
    forall id | id in Devcontainers(t, folder) && id in s.containers ensures id in Devcontainers(s, folder) {
      if a.trace.picked == Some(id) { assert t.containers[id].labels == s.containers[id].labels; }
    }
  }

  lemma UpBound(s: State, t: State, folder: string, a: Action)
    requires s.Valid() && a.DoUp? && Step(s, a, t)
    ensures |Devcontainers(t, folder)| <= Max(1, |Devcontainers(s, folder)|)
  {
    UpMembers(s, a, t, folder);
    var before, after := Devcontainers(s, folder), Devcontainers(t, folder);
    hide CommandsRun, HasLabel;
    if Created(s, t) && folder == a.folder {
      if before == {} {
        SubsetSize(after, {s.next});
      } else {
        var p := a.trace.picked.value;
        assert p in before && p !in t.containers;
        assert after <= (before - {p}) + {s.next};
        SubsetSize(after, (before - {p}) + {s.next});
      }
    } else {
      SubsetSize(after, before);
    }
  }

  /** Over a run, a folder never has more containers than it started with, or one. */
  lemma {:induction false} AtMostOneContainer(states: seq<State>, actions: seq<Action>, folder: string)
    requires Run(states, actions)
    ensures |Devcontainers(states[|actions|], folder)| <= Max(1, |Devcontainers(states[0], folder)|)
    decreases |actions|
  {
    var n := |actions|;
    if n > 0 {
      RunPrefix(states, actions, n - 1);
      AtMostOneContainer(states[..n], actions[..n - 1], folder);
      RunValid(states, actions, n - 1);
      hide Devcontainers, State.Valid, LogValid;
      StepBound(states[n - 1], actions[n - 1], states[n], folder);
    }
  }

  lemma RunPrefix(states: seq<State>, actions: seq<Action>, n: nat)
    requires Run(states, actions) && n <= |actions|
    ensures Run(states[..n + 1], actions[..n])
  {
    hide Step, LogValid, State.Valid;
  }

  // ---------------------------------------------------------------------
  // Creation commands run once

  /** The onCreate, updateContent and postCreate commands executed in a container. */
  function CreationEvents(log: seq<ExecEvent>, id: nat): seq<ExecEvent> {
    if log == [] then []
    else
      var e := log[|log| - 1];
      CreationEvents(log[..|log| - 1], id) + if e.container == id && IsCreationStage(e.stage) then [e] else []
  }

  lemma {:induction false} CreationConcat(a: seq<ExecEvent>, b: seq<ExecEvent>, id: nat)
    ensures CreationEvents(a + b, id) == CreationEvents(a, id) + CreationEvents(b, id)
  {
    if b == [] {
      assert a + b == a;
    } else {
      CreationConcat(a, b[..|b| - 1], id);
      assert (a + b)[..|a + b| - 1] == a + b[..|b| - 1];
    }
  }

  lemma {:induction false} NoneThere(log: seq<ExecEvent>, id: nat)
    requires forall i :: 0 <= i < |log| ==> log[i].container != id || !IsCreationStage(log[i].stage)
    ensures CreationEvents(log, id) == []
  {
    if log != [] { NoneThere(log[..|log| - 1], id); }
  }

  lemma {:induction false} AllThere(log: seq<ExecEvent>, id: nat)
    requires forall i :: 0 <= i < |log| ==> log[i].container == id && IsCreationStage(log[i].stage)
    ensures CreationEvents(log, id) == log
  {
    if log != [] {
      AllThere(log[..|log| - 1], id);
      assert log == log[..|log| - 1] + [log[|log| - 1]];
    }
  }

  /** Once a container's ID has been handed out by an earlier step, no creation command is executed in it any more. */
  lemma StepFreezes(s: State, a: Action, t: State, id: nat)
    requires s.Valid() && Step(s, a, t) && id < s.next
    ensures CreationEvents(t.log, id) == CreationEvents(s.log, id)
  {
    StepLog(s, a, t);
    CreationConcat(s.log, NewEvents(a), id);
    hide Step, State.Valid;
    forall i | 0 <= i < |NewEvents(a)| ensures NewEvents(a)[i].container != id || !IsCreationStage(NewEvents(a)[i].stage) {
      EventsIn(s, a, t, i);
    }
    NoneThere(NewEvents(a), id);
  }

  /** Executing a plan in two parts: within the first part, or beyond it. */
  lemma ExecutesFirstPart(events: seq<ExecEvent>, plan: seq<Planned>, rest: seq<Planned>, id: nat, workdir: string, ok: bool)
    requires Executes(events, plan + rest, id, workdir, ok)
    ensures |events| <= |plan| ==> Executes(events, plan, id, workdir, ok)
    ensures |events| > |plan| ==> Executes(events[..|plan|], plan, id, workdir, true)
    ensures forall i :: 0 <= i < |events| ==> events[i].container == id
    ensures forall i :: 0 <= i < |events| ==> events[i].stage == if i < |plan| then plan[i].stage else rest[i - |plan|].stage
  {
  }

  /** The creation part of an executed full plan. */
  lemma CreationPart(events: seq<ExecEvent>, m: ImageMeta, c: ConfigCommands, id: nat, workdir: string, ok: bool)
    requires Executes(events, FullPlan(m, c), id, workdir, ok)
    ensures exists ok' :: Executes(CreationEvents(events, id), CreationPlan(m, c), id, workdir, ok')
  {
    CreationStages(m, c);
    var plan, rest := CreationPlan(m, c), StartPlan(m, c);
    ExecutesFirstPart(events, plan, rest, id, workdir, ok);
    hide CreationPlan, StartPlan, Executes;
    if |events| <= |plan| {
      AllThere(events, id);
    } else {
      var a, b := events[..|plan|], events[|plan|..];
      assert events == a + b;
      CreationConcat(a, b, id);
      AllThere(a, id);
      forall i | 0 <= i < |b| ensures !IsCreationStage(b[i].stage) { assert b[i] == events[|plan| + i]; }
      NoneThere(b, id);
      assert CreationEvents(events, id) == a;
    }
  }

  /** In the step that hands out the ID, the creation commands run in plan order up to the first failure. */
  ghost predicate CreationRun(a: Action, id: nat, events: seq<ExecEvent>) {
    if a.DoUp? && a.result.Success? && a.result.value == id then
      exists ok :: Executes(events, CreationPlan(a.trace.meta, a.commands), id, a.workdir, ok)
    else events == []
  }

  lemma StepCreates(s: State, a: Action, t: State, id: nat)
    requires s.Valid() && LogValid(s) && Step(s, a, t) && s.next <= id < t.next
    ensures CreationRun(a, id, CreationEvents(t.log, id))
  {
    StepLog(s, a, t);
    CreationConcat(s.log, NewEvents(a), id);
    NoneThere(s.log, id);
    assert CreationEvents(t.log, id) == CreationEvents(NewEvents(a), id);
    if a.DoUp? && a.result.Success? && a.result.value == id {
      FreshIsCreated(s, a, t, id);
      var ok :| Executes(a.trace.events, FullPlan(a.trace.meta, a.commands), id, a.workdir, ok);
      CreationPart(a.trace.events, a.trace.meta, a.commands, id, a.workdir, ok);
    } else {
      hide Step, State.Valid;
      forall i | 0 <= i < |NewEvents(a)| ensures NewEvents(a)[i].container != id { EventsIn(s, a, t, i); }
      NoneThere(NewEvents(a), id);
    }
  }

  lemma FreshIsCreated(s: State, a: Action, t: State, id: nat)
    requires s.Valid() && Step(s, a, t) && a.DoUp? && a.result == Success(id) && id >= s.next
    ensures exists ok :: Executes(a.trace.events, FullPlan(a.trace.meta, a.commands), id, a.workdir, ok)
  {
    hide HasLabel, OthersKept, AtMostOneNew, Executes, FullPlan, Devcontainers;
  }

  /**
   Over a run, the creation commands of a container are executed only in the step
   that created it, in plan order and up to the first failure: so each at most once.
   */
  lemma {:induction false} CreationCommandsOnce(states: seq<State>, actions: seq<Action>, id: nat) returns (at: nat)
    requires Run(states, actions)
    requires states[0].next <= id < states[|actions|].next
    ensures at < |actions| && states[at].next <= id < states[at + 1].next
    ensures CreationEvents(states[|actions|].log, id) == CreationEvents(states[at + 1].log, id)
    ensures CreationRun(actions[at], id, CreationEvents(states[|actions|].log, id))
    decreases |actions|
  {
    var n := |actions| - 1;
    RunValid(states, actions, n);
    hide Step, State.Valid, LogValid, CreationRun, CreationEvents;
    if id < states[n].next {
      RunPrefix(states, actions, n);
      at := CreationCommandsOnce(states[..n + 1], actions[..n], id);
      StepFreezes(states[n], actions[n], states[n + 1], id);
    } else {
      at := n;
      StepCreates(states[n], actions[n], states[n + 1], id);
    }
  }

  /** For a container that existed before the run, no creation command is executed at all. */
  lemma {:induction false} OldContainersUntouched(states: seq<State>, actions: seq<Action>, id: nat)
    requires Run(states, actions) && id < states[0].next
    ensures id < states[|actions|].next
    ensures CreationEvents(states[|actions|].log, id) == CreationEvents(states[0].log, id)
    decreases |actions|
  {
    var n := |actions| - 1;
    if n >= 0 {
      RunValid(states, actions, n);
      RunPrefix(states, actions, n);
      hide Step, State.Valid, LogValid, CreationEvents;
      OldContainersUntouched(states[..n + 1], actions[..n], id);
      StepValid(states[n], actions[n], states[n + 1]);
      StepFreezes(states[n], actions[n], states[n + 1], id);
    }
  }

  lemma {:induction false} NextGrows(states: seq<State>, actions: seq<Action>, i: nat, j: nat)
    requires Run(states, actions) && i <= j <= |actions|
    ensures states[i].next <= states[j].next
    decreases j
  {
    hide Step, State.Valid, LogValid;
    if i < j {
      NextGrows(states, actions, i, j - 1);
      RunValid(states, actions, j - 1);
      StepValid(states[j - 1], actions[j - 1], states[j]);
    }
  }

  /**
   A container whose creating `Up` did not succeed never gets its creation commands:
   later runs of `Up` restart it, with the postStart commands alone.
   */
  lemma FailedCreationIsFinal(states: seq<State>, actions: seq<Action>, id: nat, at: nat)
    requires Run(states, actions) && at < |actions| && states[at].next <= id < states[at + 1].next
    requires !(actions[at].DoUp? && actions[at].result.Success?)
    ensures CreationEvents(states[|actions|].log, id) == []
  {
    NextGrows(states, actions, 0, at);
    NextGrows(states, actions, at + 1, |actions|);
    var k := CreationCommandsOnce(states, actions, id);
    if k < at { NextGrows(states, actions, k + 1, at); }
    if at < k { NextGrows(states, actions, at + 1, k); }
    hide Run, CreationEvents;
  }

  /** So commands of a creation stage in the log of a run show that the creating `Up` succeeded. */
  lemma CreationCommandsMeanSuccess(states: seq<State>, actions: seq<Action>, id: nat) returns (at: nat)
    requires Run(states, actions) && states[0].next <= id < states[|actions|].next
    requires CreationEvents(states[|actions|].log, id) != []
    ensures at < |actions| && states[at].next <= id < states[at + 1].next
    ensures actions[at].DoUp? && actions[at].result == Success(id)
  {
    at := CreationCommandsOnce(states, actions, id);
    hide Run, CreationEvents;
  }

  /** And an `Up` that restarts a container executes postStart commands only. */
  lemma RestartRunsPostStart(s: State, a: Action, t: State, i: nat)
    requires s.Valid() && Step(s, a, t) && a.DoUp? && a.result.Success? && a.result.value in s.containers
    requires i < |NewEvents(a)|
    ensures NewEvents(a)[i].container == a.result.value && NewEvents(a)[i].stage == PostStart
  {
    EventsIn(s, a, t, i);
    hide Step;
  }

  // ---------------------------------------------------------------------
  // A creation command that never runs

  /** A configuration with an onCreate command only. */
  function OnCreateOnly(cmd: string): ConfigCommands {
    ConfigCommands(Some(String(cmd)), None, None, None)
  }

  lemma OnCreatePlans(cmd: string)
    ensures CreationPlan(NO_META, OnCreateOnly(cmd)) == [Planned(OnCreate, ["/bin/sh", "-c", cmd])]
    ensures StartPlan(NO_META, OnCreateOnly(cmd)) == []
  {
    var c := OnCreateOnly(cmd);
    assert [] + [c.onCreate] == [c.onCreate] && [] + [c.updateContent] == [c.updateContent];
    assert [] + [c.postCreate] == [c.postCreate] && [] + [c.postStart] == [c.postStart];
    OnePlanned(OnCreate, c.onCreate);
    OnePlanned(UpdateContent, c.updateContent);
    OnePlanned(PostCreate, c.postCreate);
    OnePlanned(PostStart, c.postStart);
    hide Plan;
  }

  lemma OnePlanned(stage: Stage, lc: Raw)
    ensures Plan(stage, [lc]) == if Argv(lc).Some? then [Planned(stage, Argv(lc).value)] else []
  {
    assert [lc][..0] == [];
    hide Argv;
  }

  /** What the first `Up` leaves when its container cannot be started, and what the second one makes of it. */
  function Created0(folder: string, image: string, running: bool): State {
    State(map[0 := Container(ContainerLabels(folder), running, [], image)], 1, {}, map[], [])
  }

  const EMPTY := State(map[], 0, {}, map[], [])

  lemma FirstUpFails(folder: string, image: string, c: ConfigCommands, workdir: string)
    ensures Step(EMPTY, DoUp(folder, false, c, workdir, Failure(StartFailed(0)), Trace(None, [], NO_META)), Created0(folder, image, false))
  {
    var t := Created0(folder, image, false);
    var ctr := t.containers[0];
    var trace := Trace(None, [], NO_META);
    NewContainerIs(EMPTY, t, folder, ctr);
    NotStarted(EMPTY, t, ctr);
    assert Devcontainers(EMPTY, folder) == {};
    hide NewContainer, CreateFailsAs, ContainerLabels;
    CreatedAfter(EMPTY, EMPTY, t, folder, image, false, c, workdir, Failure(StartFailed(0)), trace);
    hide UpSpec;
  }

  lemma SecondUpRestarts(folder: string, image: string, cmd: string, workdir: string)
    ensures Step(Created0(folder, image, false),
                 DoUp(folder, false, OnCreateOnly(cmd), workdir, Success(0), Trace(Some(0), [], NO_META)),
                 Created0(folder, image, true))
  {
    var s, t, c := Created0(folder, image, false), Created0(folder, image, true), OnCreateOnly(cmd);
    OnCreatePlans(cmd);
    NothingExecuted(0, workdir);
    assert s.containers[0 := s.containers[0].(running := true)] == t.containers;
    assert Ran(s.WithRunning(0, true), t, []);
    assert HasLabel(s.containers[0].labels, DEVCONTAINER_LABEL, folder);
    hide ContainerLabels, StartPlan, OnCreateOnly, Executes, CreationPlan;
    Restarted(s, t, folder, c, workdir, 0, Success(0), Trace(Some(0), [], NO_META));
    hide UpSpec;
  }

  /** Two calls of `Up`: the first creates the container and fails, the second succeeds, and the onCreate command has not been executed. */
  lemma CreatedThenRestarted(folder: string, image: string, cmd: string, workdir: string) returns (states: seq<State>, actions: seq<Action>)
    ensures Run(states, actions) && |actions| == 2
    ensures forall i :: 0 <= i < 2 ==> actions[i].DoUp? && actions[i].folder == folder && actions[i].commands == OnCreateOnly(cmd)
    ensures actions[0].result == Failure(StartFailed(0)) && actions[1].result == Success(0)
    ensures |CreationPlan(actions[1].trace.meta, actions[1].commands)| == 1
    ensures states[2].Running(0) && CreationEvents(states[2].log, 0) == []
  {
    var c := OnCreateOnly(cmd);
    states := [EMPTY, Created0(folder, image, false), Created0(folder, image, true)];
    actions := [DoUp(folder, false, c, workdir, Failure(StartFailed(0)), Trace(None, [], NO_META)),
                DoUp(folder, false, c, workdir, Success(0), Trace(Some(0), [], NO_META))];
    FirstUpFails(folder, image, c, workdir);
    SecondUpRestarts(folder, image, cmd, workdir);
    OnCreatePlans(cmd);
    hide Step, CreationPlan, OnCreateOnly, ContainerLabels;
  }
}
