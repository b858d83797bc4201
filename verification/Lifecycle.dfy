/**
 Lifecycle commands (devcontainer/lifecycle.go) and the chain that `Up` and
 `runPostStarts` run (devcontainer/up.go), against one flat list of commands.
 */
module Lifecycle {
  import opened Wrappers
  import opened Collections
  import opened FeatureData
  import opened Metadata
  import opened DockerModel

  /** The command line of a lifecycle command; empty and object forms have none. */
  function Argv(lc: Raw): Option<seq<string>> {
    if IsEmpty(lc) then None
    else if AsString(lc).Some? then Some(["/bin/sh", "-c", AsString(lc).value])
    else AsArray(lc)
  }

  datatype Planned = Planned(stage: Stage, argv: seq<string>)

  /** The commands of one stage that are to be executed, in order. */
  function Plan(stage: Stage, lcs: seq<Raw>): seq<Planned> {
    if lcs == [] then []
    else
      var argv := Argv(lcs[|lcs| - 1]);
      Plan(stage, lcs[..|lcs| - 1]) + if argv.Some? then [Planned(stage, argv.value)] else []
  }

  /** The commands of a configuration. */
  datatype ConfigCommands = ConfigCommands(onCreate: Raw, updateContent: Raw, postCreate: Raw, postStart: Raw)

  /** Everything that must run at most once per container: features first, then the configuration, stage by stage. */
  function CreationPlan(m: ImageMeta, c: ConfigCommands): seq<Planned> {
    Plan(OnCreate, m.onCreateCommands + [c.onCreate])
    + Plan(UpdateContent, m.updateContentCommands + [c.updateContent])
    + Plan(PostCreate, m.postCreateCommands + [c.postCreate])
  }

  function StartPlan(m: ImageMeta, c: ConfigCommands): seq<Planned> {
    Plan(PostStart, m.postStartCommands + [c.postStart])
  }

  /** The whole chain for a new container. */
  function FullPlan(m: ImageMeta, c: ConfigCommands): seq<Planned> {
    CreationPlan(m, c) + StartPlan(m, c)
  }

  /** `events` executes `plan` in the container up to and including the first command that failed. */
  ghost predicate Executes(events: seq<ExecEvent>, plan: seq<Planned>, id: nat, workdir: string, ok: bool) {
    && |events| <= |plan|
    && (forall i :: 0 <= i < |events| ==>
          events[i] == ExecEvent(id, plan[i].stage, plan[i].argv, workdir, ok || i < |events| - 1))
    && (if ok then |events| == |plan| else |events| > 0)
  }

  lemma ExecutesThen(a: seq<ExecEvent>, p: seq<Planned>, b: seq<ExecEvent>, q: seq<Planned>, id: nat, workdir: string, ok: bool)
    requires Executes(a, p, id, workdir, true) && Executes(b, q, id, workdir, ok)
    ensures Executes(a + b, p + q, id, workdir, ok)
  {
  }

  lemma ExecutesStops(a: seq<ExecEvent>, p: seq<Planned>, q: seq<Planned>, id: nat, workdir: string)
    requires Executes(a, p, id, workdir, false)
    ensures Executes(a, p + q, id, workdir, false)
  {
  }

  /** The daemon after some more commands have been executed. */
  ghost predicate Ran(s: State, t: State, events: seq<ExecEvent>) {
    t == s.(log := s.log + events)
  }

  /** `runLifecycleCommand`. */
  method RunLifecycleCommand(cli: Daemon, id: nat, lc: Raw, workdir: string, stage: Stage) returns (ok: bool, ghost events: seq<ExecEvent>)
    modifies cli
    ensures Ran(old(cli.st), cli.st, events) && Executes(events, Plan(stage, [lc]), id, workdir, ok)
  {
    assert [lc][..0] == [];
    assert Plan(stage, [lc]) == if Argv(lc).Some? then [Planned(stage, Argv(lc).value)] else [];
    events := [];
    ok := true;
    if IsEmpty(lc) {
      return;
    }
    var containerCmd: seq<string>;
    var s := AsString(lc);
    if s.Some? {
      containerCmd := ["/bin/sh", "-c", s.value];
    } else {
      var arr := AsArray(lc);
      if arr.None? {
        return;
      }
      containerCmd := arr.value;
    }
    hide IsEmpty, AsString, AsArray, Plan;
    ok := cli.Exec(id, stage, workdir, containerCmd);
    events := [ExecEvent(id, stage, containerCmd, workdir, ok)];
  }

  lemma PlanMore(stage: Stage, lcs: seq<Raw>, lc: Raw)
    ensures Plan(stage, lcs + [lc]) == Plan(stage, lcs) + Plan(stage, [lc])
  {
    assert (lcs + [lc])[..|lcs|] == lcs && [lc][..0] == [];
    hide Argv;
  }

  lemma {:induction false} PlanConcat(stage: Stage, a: seq<Raw>, b: seq<Raw>)
    ensures Plan(stage, a + b) == Plan(stage, a) + Plan(stage, b)
  {
    hide Argv;
    if b == [] {
      assert a + b == a;
    } else {
      var front, last := b[..|b| - 1], b[|b| - 1];
      assert b == front + [last] && a + b == (a + front) + [last];
      PlanConcat(stage, a, front);
      PlanMore(stage, a + front, last);
      PlanMore(stage, front, last);
    }
  }

  /** One of the loops over feature commands, left at the first failure. */
  method RunEach(cli: Daemon, id: nat, lcs: seq<Raw>, workdir: string, stage: Stage) returns (ok: bool, ghost events: seq<ExecEvent>)
    modifies cli
    ensures Ran(old(cli.st), cli.st, events) && Executes(events, Plan(stage, lcs), id, workdir, ok)
  {
    ok, events := true, [];
    for i := 0 to |lcs|
      invariant ok && Ran(old(cli.st), cli.st, events) && Executes(events, Plan(stage, lcs[..i]), id, workdir, true)
    {
      ghost var more;
      ok, more := RunLifecycleCommand(cli, id, lcs[i], workdir, stage);
      hide Plan, Executes;
      EachStep(events, more, stage, lcs, i, id, workdir, ok);
      events := events + more;
      if !ok {
        return;
      }
    }
    assert lcs[..|lcs|] == lcs;
  }

  lemma EachStep(events: seq<ExecEvent>, more: seq<ExecEvent>, stage: Stage, lcs: seq<Raw>, i: nat, id: nat, workdir: string, ok: bool)
    requires i < |lcs| && Executes(events, Plan(stage, lcs[..i]), id, workdir, true)
    requires Executes(more, Plan(stage, [lcs[i]]), id, workdir, ok)
    ensures Executes(events + more, Plan(stage, lcs[..i + 1]), id, workdir, ok)
    ensures !ok ==> Executes(events + more, Plan(stage, lcs), id, workdir, false)
  {
    hide Plan, Executes;
    assert lcs[..i + 1] == lcs[..i] + [lcs[i]];
    PlanMore(stage, lcs[..i], lcs[i]);
    ExecutesThen(events, Plan(stage, lcs[..i]), more, Plan(stage, [lcs[i]]), id, workdir, ok);
    if !ok {
      assert lcs == lcs[..i + 1] + lcs[i + 1..];
      PlanConcat(stage, lcs[..i + 1], lcs[i + 1..]);
      ExecutesStops(events + more, Plan(stage, lcs[..i + 1]), Plan(stage, lcs[i + 1..]), id, workdir);
    }
  }

  /** A chain so far, extended by a step that is skipped once something has failed. */
  lemma ChainStep(a: seq<ExecEvent>, p: seq<Planned>, ok: bool, b: seq<ExecEvent>, q: seq<Planned>, ok': bool, id: nat, workdir: string)
    requires Executes(a, p, id, workdir, ok)
    requires if ok then Executes(b, q, id, workdir, ok') else b == [] && !ok'
    ensures Executes(a + b, p + q, id, workdir, ok')
  {
    if ok {
      ExecutesThen(a, p, b, q, id, workdir, ok');
    } else {
      ExecutesStops(a, p, q, id, workdir);
      assert a + b == a;
    }
  }

  lemma EmptyCommand(stage: Stage, lc: Raw)
    requires IsEmpty(lc)
    ensures Plan(stage, [lc]) == []
  {
    assert [lc][..0] == [];
  }

  /** One stage of the chain: feature commands, then the configuration's, unless something has failed before. */
  method RunStage(cli: Daemon, id: nat, features: seq<Raw>, config: Raw, workdir: string, stage: Stage, before: bool,
                  ghost done: seq<ExecEvent>, ghost plan: seq<Planned>)
    returns (chainOk: bool, ghost events: seq<ExecEvent>)
    requires Executes(done, plan, id, workdir, before)
    modifies cli
    ensures Ran(old(cli.st), cli.st, events)
    ensures Executes(done + events, plan + Plan(stage, features + [config]), id, workdir, chainOk)
  {
    ghost var s := cli.st;
    ghost var first: seq<ExecEvent>, second: seq<ExecEvent> := [], [];
    hide Plan, Executes;
    PlanMore(stage, features, config);
    chainOk := before;
    if chainOk {
      chainOk, first := RunEach(cli, id, features, workdir, stage);
    }
    ChainStep(done, plan, before, first, Plan(stage, features), chainOk, id, workdir);
    ghost var middle := chainOk;
    if chainOk && !IsEmpty(config) {
      chainOk, second := RunLifecycleCommand(cli, id, config, workdir, stage);
    } else if chainOk {
      EmptyCommand(stage, config);
      assert Executes([], Plan(stage, [config]), id, workdir, true) by { NothingExecuted(id, workdir); }
    }
    ChainStep(done + first, plan + Plan(stage, features), middle, second, Plan(stage, [config]), chainOk, id, workdir);
    events := first + second;
    assert done + first + second == done + events;
    assert plan + Plan(stage, features) + Plan(stage, [config]) == plan + Plan(stage, features + [config]);
  }

  lemma NothingExecuted(id: nat, workdir: string)
    ensures Executes([], [], id, workdir, true)
  {
  }

  // ---------------------------------------------------------------------
  // What was executed, in terms of the commands alone

  /** The stages in the order in which they are due. */
  function Rank(stage: Stage): (r: nat)
    ensures stage == OnCreate ==> r == 0
    ensures stage == UpdateContent ==> r == 1
    ensures stage == PostCreate ==> r == 2
    ensures stage == PostStart ==> r == 3
    ensures stage == PostAttach ==> r == 4
  {
    match stage
    case OnCreate => 0
    case UpdateContent => 1
    case PostCreate => 2
    case PostStart => 3
    case PostAttach => 4
  }

  /** `argv` is the command line of `lc`: a string for the shell, or an array of strings as it is. */
  ghost predicate CommandLine(lc: Raw, argv: seq<string>) {
    || (lc.Some? && lc.value.String? && argv == ["/bin/sh", "-c", lc.value.text])
    || (lc.Some? && lc.value.Array? && |argv| == |lc.value.items|
        && forall k :: 0 <= k < |argv| ==>
             || (lc.value.items[k].String? && argv[k] == lc.value.items[k].text)
             || (lc.value.items[k].Null? && argv[k] == ""))
  }

  lemma ArgvMeans(lc: Raw)
    ensures Argv(lc).Some? ==> CommandLine(lc, Argv(lc).value)
    ensures forall argv :: CommandLine(lc, argv) ==> Argv(lc) == Some(argv)
  {
    forall argv | CommandLine(lc, argv) ensures Argv(lc) == Some(argv) {
      if lc.value.Array? {
        assert IsStringArray(lc.value.items);
        assert AsArray(lc).value == argv;
      }
    }
  }

  /**
   The commands `lcs` of a stage were executed in order, each at most once, as the
   events from `lo` to `hi`; commands were left out only if they have no command
   line, or come after one that failed and ended everything.
   */
  ghost predicate StageRan(events: seq<ExecEvent>, stage: Stage, lcs: seq<Raw>, lo: nat, hi: nat, at: seq<nat>) {
    && lo <= hi <= |events| && |at| == hi - lo && Increasing(at)
    && (forall k :: 0 <= k < |events| ==> (events[k].stage == stage <==> lo <= k < hi))
    && (forall n :: 0 <= n < |at| ==> at[n] < |lcs| && CommandLine(lcs[at[n]], events[lo + n].argv))
    && (forall i, argv :: 0 <= i < |lcs| && CommandLine(lcs[i], argv) ==>
          || i in at
          || (hi == |events| > 0 && !events[|events| - 1].ok && (at != [] ==> at[|at| - 1] < i)))
  }

  ghost predicate StageExecuted(events: seq<ExecEvent>, stage: Stage, lcs: seq<Raw>) {
    exists lo, hi, at :: StageRan(events, stage, lcs, lo, hi, at)
  }

  /** The commands of a plan by their positions. */
  lemma {:induction false} PlanPositions(stage: Stage, lcs: seq<Raw>) returns (at: seq<nat>)
    ensures |at| == |Plan(stage, lcs)| && Increasing(at)
    ensures forall n :: 0 <= n < |at| ==>
              at[n] < |lcs| && Plan(stage, lcs)[n].stage == stage && CommandLine(lcs[at[n]], Plan(stage, lcs)[n].argv)
    ensures forall i, argv :: 0 <= i < |lcs| && CommandLine(lcs[i], argv) ==> i in at
  {
    hide Argv, CommandLine;
    if lcs == [] {
      at := [];
    } else {
      var n := |lcs| - 1;
      at := PlanPositions(stage, lcs[..n]);
      ArgvMeans(lcs[n]);
      ghost var before := at;
      if Argv(lcs[n]).Some? {
        at := at + [n];
        assert at[|before|] == n;
      }
      forall i, argv | 0 <= i < |lcs| && CommandLine(lcs[i], argv) ensures i in at {
        if i < n { assert CommandLine(lcs[..n][i], argv); assert i in before; }
      }
    }
  }

  /** One stage of an executed plan that is put together from `front`, the stage's plan and `back`. */
  lemma StageOfPlan(events: seq<ExecEvent>, front: seq<Planned>, stage: Stage, lcs: seq<Raw>, back: seq<Planned>,
                    id: nat, workdir: string, ok: bool)
    requires Executes(events, front + Plan(stage, lcs) + back, id, workdir, ok)
    requires forall i :: 0 <= i < |front| ==> front[i].stage != stage
    requires forall i :: 0 <= i < |back| ==> back[i].stage != stage
    ensures StageExecuted(events, stage, lcs)
  {
    hide *;
    var positions := PlanPositions(stage, lcs);
    StagesOf(front, Plan(stage, lcs), back, stage);
    var plan := front + Plan(stage, lcs) + back;
    var lo := if |events| < |front| then |events| else |front|;
    var hi := if |events| < |front| + |positions| then |events| else |front| + |positions|;
    var at := positions[..hi - lo];
    StageEvents(events, plan, stage, lo, hi, id, workdir, ok, |front|, |positions|);
    forall n | 0 <= n < |at| ensures at[n] < |lcs| && CommandLine(lcs[at[n]], events[lo + n].argv) {
      assert plan[lo + n] == Plan(stage, lcs)[n];
    }
    CutPositions(positions, at);
    forall i, argv | 0 <= i < |lcs| && CommandLine(lcs[i], argv)
      ensures i in at || (hi == |events| > 0 && !events[|events| - 1].ok && (at != [] ==> at[|at| - 1] < i))
    {
      assert i in positions;
    }
    StageDone(events, stage, lcs, lo, hi, at);
  }

  lemma StagesOf(front: seq<Planned>, middle: seq<Planned>, back: seq<Planned>, stage: Stage)
    requires forall i :: 0 <= i < |front| ==> front[i].stage != stage
    requires forall i :: 0 <= i < |middle| ==> middle[i].stage == stage
    requires forall i :: 0 <= i < |back| ==> back[i].stage != stage
    ensures var plan := front + middle + back;
            forall i :: 0 <= i < |plan| ==> (plan[i].stage == stage <==> |front| <= i < |front| + |middle|)
  {
  }

  lemma StageDone(events: seq<ExecEvent>, stage: Stage, lcs: seq<Raw>, lo: nat, hi: nat, at: seq<nat>)
    requires lo <= hi <= |events| && |at| == hi - lo && Increasing(at)
    requires forall k :: 0 <= k < |events| ==> (events[k].stage == stage <==> lo <= k < hi)
    requires forall n :: 0 <= n < |at| ==> at[n] < |lcs| && CommandLine(lcs[at[n]], events[lo + n].argv)
    requires forall i, argv :: 0 <= i < |lcs| && CommandLine(lcs[i], argv) ==>
               i in at || (hi == |events| > 0 && !events[|events| - 1].ok && (at != [] ==> at[|at| - 1] < i))
    ensures StageExecuted(events, stage, lcs)
  {
    hide CommandLine;
    assert StageRan(events, stage, lcs, lo, hi, at);
  }

  /** What a list of positions has beyond a prefix comes later. */
  lemma CutPositions(positions: seq<nat>, at: seq<nat>)
    requires Increasing(positions) && |at| <= |positions| && at == positions[..|at|]
    ensures Increasing(at)
    ensures forall i :: i in positions && i !in at ==> |at| < |positions| && (at != [] ==> at[|at| - 1] < i)
  {
    assert forall k :: 0 <= k < |at| ==> at[k] == positions[k] && positions[k] in at;
  }

  lemma StageEvents(events: seq<ExecEvent>, plan: seq<Planned>, stage: Stage, lo: nat, hi: nat,
                    id: nat, workdir: string, ok: bool, from: nat, count: nat)
    requires Executes(events, plan, id, workdir, ok) && from + count <= |plan|
    requires forall i :: 0 <= i < |plan| ==> (plan[i].stage == stage <==> from <= i < from + count)
    requires lo == (if |events| < from then |events| else from) && hi == (if |events| < from + count then |events| else from + count)
    ensures lo <= hi <= |events| && hi - lo <= count && (lo < hi ==> lo == from)
    ensures forall k :: 0 <= k < |events| ==> (events[k].stage == stage <==> lo <= k < hi)
    ensures forall k :: 0 <= k < |events| ==> events[k].argv == plan[k].argv
    ensures hi - lo < count ==> hi == |events| > 0 && !events[|events| - 1].ok
  {
  }

  /**
   What the chain executed in a container: stage by stage, in each stage the
   features' commands and then the configuration's, up to the first failure.
   */
  ghost predicate ChainExecuted(events: seq<ExecEvent>, m: ImageMeta, c: ConfigCommands) {
    && (forall i, j :: 0 <= i < j < |events| ==> Rank(events[i].stage) <= Rank(events[j].stage) <= 3)
    && (forall i :: 0 <= i < |events| - 1 ==> events[i].ok)
    && StageExecuted(events, OnCreate, m.onCreateCommands + [c.onCreate])
    && StageExecuted(events, UpdateContent, m.updateContentCommands + [c.updateContent])
    && StageExecuted(events, PostCreate, m.postCreateCommands + [c.postCreate])
    && StageExecuted(events, PostStart, m.postStartCommands + [c.postStart])
  }

  lemma ChainMeans(events: seq<ExecEvent>, m: ImageMeta, c: ConfigCommands, id: nat, workdir: string, ok: bool)
    requires Executes(events, FullPlan(m, c), id, workdir, ok)
    ensures ChainExecuted(events, m, c)
    ensures forall i :: 0 <= i < |events| ==> events[i].container == id && events[i].workdir == workdir
    ensures ok <==> forall i :: 0 <= i < |events| ==> events[i].ok
  {
    var l1, l2 := m.onCreateCommands + [c.onCreate], m.updateContentCommands + [c.updateContent];
    var l3, l4 := m.postCreateCommands + [c.postCreate], m.postStartCommands + [c.postStart];
    var p1, p2, p3, p4 := Plan(OnCreate, l1), Plan(UpdateContent, l2), Plan(PostCreate, l3), Plan(PostStart, l4);
    PlanStage(OnCreate, l1);
    PlanStage(UpdateContent, l2);
    PlanStage(PostCreate, l3);
    PlanStage(PostStart, l4);
    var plan := FullPlan(m, c);
    assert plan == p1 + p2 + p3 + p4;
    hide Plan, FullPlan, CreationPlan, StartPlan, StageExecuted;
    assert plan == [] + p1 + (p2 + p3 + p4) && plan == p1 + p2 + (p3 + p4);
    assert plan == (p1 + p2) + p3 + p4 && plan == (p1 + p2 + p3) + p4 + [];
    RanksIncrease(events, p1, p2, p3, p4, id, workdir, ok);
    hide Executes;
    StageOfPlan(events, [], OnCreate, l1, p2 + p3 + p4, id, workdir, ok);
    StageOfPlan(events, p1, UpdateContent, l2, p3 + p4, id, workdir, ok);
    StageOfPlan(events, p1 + p2, PostCreate, l3, p4, id, workdir, ok);
    StageOfPlan(events, p1 + p2 + p3, PostStart, l4, [], id, workdir, ok);
    hide Rank;
    assert ChainExecuted(events, m, c);
  }

  lemma RanksIncrease(events: seq<ExecEvent>, p1: seq<Planned>, p2: seq<Planned>, p3: seq<Planned>, p4: seq<Planned>,
                      id: nat, workdir: string, ok: bool)
    requires Executes(events, p1 + p2 + p3 + p4, id, workdir, ok)
    requires forall i :: 0 <= i < |p1| ==> p1[i].stage == OnCreate
    requires forall i :: 0 <= i < |p2| ==> p2[i].stage == UpdateContent
    requires forall i :: 0 <= i < |p3| ==> p3[i].stage == PostCreate
    requires forall i :: 0 <= i < |p4| ==> p4[i].stage == PostStart
    ensures forall i, j :: 0 <= i < j < |events| ==> Rank(events[i].stage) <= Rank(events[j].stage) <= 3
    ensures forall i :: 0 <= i < |events| - 1 ==> events[i].ok
    ensures forall i :: 0 <= i < |events| ==> events[i].container == id && events[i].workdir == workdir
    ensures ok <==> forall i :: 0 <= i < |events| ==> events[i].ok
  {
    var plan := p1 + p2 + p3 + p4;
    PlanRanks(p1, p2, p3, p4);
    hide Rank;
    forall i, j | 0 <= i < j < |events| ensures Rank(events[i].stage) <= Rank(events[j].stage) <= 3 {
      assert events[i].stage == plan[i].stage && events[j].stage == plan[j].stage;
    }
    if !ok { assert !events[|events| - 1].ok; }
  }

  lemma PlanRanks(p1: seq<Planned>, p2: seq<Planned>, p3: seq<Planned>, p4: seq<Planned>)
    requires forall i :: 0 <= i < |p1| ==> p1[i].stage == OnCreate
    requires forall i :: 0 <= i < |p2| ==> p2[i].stage == UpdateContent
    requires forall i :: 0 <= i < |p3| ==> p3[i].stage == PostCreate
    requires forall i :: 0 <= i < |p4| ==> p4[i].stage == PostStart
    ensures var plan := p1 + p2 + p3 + p4;
            forall i, j :: 0 <= i < j < |plan| ==> Rank(plan[i].stage) <= Rank(plan[j].stage) <= 3
  {
    var plan := p1 + p2 + p3 + p4;
    forall i | 0 <= i < |plan|
      ensures plan[i].stage == if i < |p1| then OnCreate else if i < |p1| + |p2| then UpdateContent
                               else if i < |p1| + |p2| + |p3| then PostCreate else PostStart
    {
    }
  }

  /** Step 8 of `Up`: the four stages of a newly created container. */
  method RunChain(cli: Daemon, id: nat, m: ImageMeta, c: ConfigCommands, workdir: string)
    returns (chainOk: bool, ghost events: seq<ExecEvent>)
    modifies cli
    ensures Ran(old(cli.st), cli.st, events) && Executes(events, FullPlan(m, c), id, workdir, chainOk)
    ensures ChainExecuted(events, m, c)
  {
    ghost var more;
    NothingExecuted(id, workdir);
    hide Executes, Plan, ChainExecuted;
    ghost var p1 := Plan(OnCreate, m.onCreateCommands + [c.onCreate]);
    ghost var p2 := Plan(UpdateContent, m.updateContentCommands + [c.updateContent]);
    ghost var p3 := Plan(PostCreate, m.postCreateCommands + [c.postCreate]);
    ghost var p4 := Plan(PostStart, m.postStartCommands + [c.postStart]);
    assert [] + p1 == p1;
    chainOk, events := RunStage(cli, id, m.onCreateCommands, c.onCreate, workdir, OnCreate, true, [], []);
    assert [] + events == events;
    chainOk, more := RunStage(cli, id, m.updateContentCommands, c.updateContent, workdir, UpdateContent, chainOk, events, p1);
    events := events + more;
    chainOk, more := RunStage(cli, id, m.postCreateCommands, c.postCreate, workdir, PostCreate, chainOk, events, p1 + p2);
    events := events + more;
    chainOk, more := RunStage(cli, id, m.postStartCommands, c.postStart, workdir, PostStart, chainOk, events, p1 + p2 + p3);
    events := events + more;
    assert FullPlan(m, c) == p1 + p2 + p3 + p4;
    hide FullPlan;
    ChainMeans(events, m, c, id, workdir, chainOk);
  }

  lemma StartMeans(events: seq<ExecEvent>, m: ImageMeta, c: ConfigCommands, id: nat, workdir: string, ok: bool)
    requires Executes(events, StartPlan(m, c), id, workdir, ok)
    ensures StageExecuted(events, PostStart, m.postStartCommands + [c.postStart])
    ensures forall i :: 0 <= i < |events| ==> events[i].stage == PostStart
  {
    var lcs := m.postStartCommands + [c.postStart];
    PlanStage(PostStart, lcs);
    hide Plan, StageExecuted;
    assert StartPlan(m, c) == [] + Plan(PostStart, lcs) + [];
    StageOfPlan(events, [], PostStart, lcs, [], id, workdir, ok);
  }

  /** `runPostStarts`. */
  method RunPostStarts(cli: Daemon, id: nat, m: ImageMeta, c: ConfigCommands, workdir: string)
    returns (chainOk: bool, ghost events: seq<ExecEvent>)
    modifies cli
    ensures Ran(old(cli.st), cli.st, events) && Executes(events, StartPlan(m, c), id, workdir, chainOk)
    ensures StageExecuted(events, PostStart, m.postStartCommands + [c.postStart])
    ensures forall i :: 0 <= i < |events| ==> events[i].stage == PostStart
  {
    NothingExecuted(id, workdir);
    hide Executes, Plan;
    chainOk, events := RunStage(cli, id, m.postStartCommands, c.postStart, workdir, PostStart, true, [], []);
    assert [] + events == events;
    assert [] + StartPlan(m, c) == StartPlan(m, c);
    StartMeans(events, m, c, id, workdir, chainOk);
  }

  // ---------------------------------------------------------------------
  // Stages of a plan

  lemma {:induction false} PlanStage(stage: Stage, lcs: seq<Raw>)
    ensures forall i :: 0 <= i < |Plan(stage, lcs)| ==> Plan(stage, lcs)[i].stage == stage
  {
    hide Argv;
    if lcs != [] { PlanStage(stage, lcs[..|lcs| - 1]); }
  }

  predicate IsCreationStage(stage: Stage) {
    stage == OnCreate || stage == UpdateContent || stage == PostCreate
  }

  lemma CreationStages(m: ImageMeta, c: ConfigCommands)
    ensures forall i :: 0 <= i < |CreationPlan(m, c)| ==> IsCreationStage(CreationPlan(m, c)[i].stage)
    ensures forall i :: 0 <= i < |StartPlan(m, c)| ==> StartPlan(m, c)[i].stage == PostStart
  {
    PlanStage(OnCreate, m.onCreateCommands + [c.onCreate]);
    PlanStage(UpdateContent, m.updateContentCommands + [c.updateContent]);
    PlanStage(PostCreate, m.postCreateCommands + [c.postCreate]);
    PlanStage(PostStart, m.postStartCommands + [c.postStart]);
    hide Plan;
  }
}
