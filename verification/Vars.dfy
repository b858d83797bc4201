/**
 Variable substitution in devcontainer.json (devcontainer/vars.go).  The host
 folder, its hashed identifier and the host environment are parameters.
 */
module Vars {
  import opened Wrappers
  import opened Text
  import opened FeatureData
  import opened Scan
  import opened Settle

  /** `filepath.Base` on Unix. */
  function Base(path: string): string {
    var trimmed := WithoutTrailingSlashes(path);
    if path == "" then "."
    else if trimmed == "" then "/"
    else trimmed[LastIndexOf(trimmed, '/') + 1..]
  }

  function WithoutTrailingSlashes(path: string): string {
    if path != "" && path[|path| - 1] == '/' then WithoutTrailingSlashes(path[..|path| - 1]) else path
  }

  datatype Host = Host(folder: string, devcontainerID: string, env: Env)

  const LOCAL_ENV := "localEnv:"

  /** The names `resolveVar` knows. */
  predicate Recognised(inner: string) {
    || inner == "localWorkspaceFolder"
    || inner == "localWorkspaceFolderBasename"
    || inner == "containerWorkspaceFolder"
    || inner == "containerWorkspaceFolderBasename"
    || inner == "devcontainerId"
    || HasPrefix(inner, LOCAL_ENV)
  }

  function NameOf(rest: string): string {
    var colon := IndexOf(rest, ':');
    if colon == -1 then rest else rest[..colon]
  }

  /** The value of `NAME` or `NAME:DEFAULT`; unset and empty are not told apart. */
  function LocalEnv(rest: string, env: Env): string {
    var colon, name := IndexOf(rest, ':'), NameOf(rest);
    var value := if name in env then env[name] else "";
    if value == "" && colon != -1 then rest[colon + 1..] else value
  }

  /** `resolveVar`. */
  function ResolveVar(inner: string, host: Host, containerFolder: string): string {
    if inner == "localWorkspaceFolder" then host.folder
    else if inner == "localWorkspaceFolderBasename" then Base(host.folder)
    else if inner == "containerWorkspaceFolder" then containerFolder
    else if inner == "containerWorkspaceFolderBasename" then Base(containerFolder)
    else if inner == "devcontainerId" then host.devcontainerID
    else if HasPrefix(inner, LOCAL_ENV) then LocalEnv(inner[|LOCAL_ENV|..], host.env)
    else Written(inner)
  }

  function Resolver(host: Host, containerFolder: string): string -> string {
    inner => ResolveVar(inner, host, containerFolder)
  }

  /** `substituteString`. */
  function Substitute(s: string, host: Host, containerFolder: string): string {
    Expand(NegatedClass, s, Resolver(host, containerFolder))
  }

  // ---------------------------------------------------------------------
  // Fixpoints

  /** Unknown references, and texts without references, are left alone. */
  lemma UnknownUnchanged(s: string, host: Host, containerFolder: string)
    requires forall inner :: inner in References(NegatedClass, s) ==>
               && inner != "localWorkspaceFolder" && inner != "localWorkspaceFolderBasename"
               && inner != "containerWorkspaceFolder" && inner != "containerWorkspaceFolderBasename"
               && inner != "devcontainerId" && !HasPrefix(inner, "localEnv:")
    ensures Substitute(s, host, containerFolder) == s
  {
    SelfReplacement(NegatedClass, s, Resolver(host, containerFolder));
  }

  /** Each known reference in `s` has a clean value. */
  ghost predicate CleanValues(s: string, host: Host, containerFolder: string) {
    forall inner :: inner in References(NegatedClass, s) && Recognised(inner) ==> Clean(ResolveVar(inner, host, containerFolder))
  }

  /** After substitution with clean values, nothing known is left to substitute. */
  lemma SubstituteSettles(s: string, host: Host, containerFolder: string, inner: string)
    requires CleanValues(s, host, containerFolder)
    requires inner in References(NegatedClass, Substitute(s, host, containerFolder))
    ensures inner in References(NegatedClass, s) && !Recognised(inner)
  {
    var value := Resolver(host, containerFolder);
    hide Recognised, Clean;
    assert Tame(s, value) by { TameResolver(s, host, containerFolder); }
    OnlyUnknownRemain(s, value, inner);
    ReferencesProper(s);
    if Recognised(inner) { WrittenNotClean(inner); }
  }

  lemma TameResolver(s: string, host: Host, containerFolder: string)
    requires CleanValues(s, host, containerFolder)
    ensures Tame(s, Resolver(host, containerFolder))
  {
    hide Clean, Base, LocalEnv;
  }

  /** Each known reference in `s` has a settled value: one that leaves no known reference behind. */
  ghost predicate SettledValues(s: string, host: Host, containerFolder: string) {
    forall inner :: inner in References(NegatedClass, s) && Recognised(inner) ==>
      Settled(ResolveVar(inner, host, containerFolder), Recognised)
  }

  lemma SettledResolver(s: string, host: Host, containerFolder: string)
    requires SettledValues(s, host, containerFolder)
    ensures SettledText(s, Resolver(host, containerFolder), Recognised)
  {
    hide Settled, Base, LocalEnv;
  }

  /** Substitution is idempotent on settled values, whatever the values are the second time. */
  lemma SubstituteIdempotent(s: string, host: Host, containerFolder: string, host': Host, containerFolder': string)
    requires SettledValues(s, host, containerFolder)
    ensures Substitute(Substitute(s, host, containerFolder), host', containerFolder') == Substitute(s, host, containerFolder)
  {
    SettledResolver(s, host, containerFolder);
    hide SettledText, Expand;
    SettledStays(s, Resolver(host, containerFolder), Resolver(host', containerFolder'), Recognised);
  }

  /** In particular when each known value is plain: not empty, and without `$` and `{`. */
  lemma PlainValuesIdempotent(s: string, host: Host, containerFolder: string, host': Host, containerFolder': string)
    requires forall inner :: inner in References(NegatedClass, s) && Recognised(inner) ==>
               var v := ResolveVar(inner, host, containerFolder);
               v != "" && '$' !in v && '{' !in v
    ensures Substitute(Substitute(s, host, containerFolder), host', containerFolder') == Substitute(s, host, containerFolder)
  {
    hide Substitute, ResolveVar, Recognised;
    forall inner | inner in References(NegatedClass, s) && Recognised(inner)
      ensures Settled(ResolveVar(inner, host, containerFolder), Recognised)
    {
      PlainIsClean(ResolveVar(inner, host, containerFolder));
      CleanIsSettled(ResolveVar(inner, host, containerFolder), Recognised);
    }
    hide Settled;
    SubstituteIdempotent(s, host, containerFolder, host', containerFolder');
  }

  // ---------------------------------------------------------------------
  // Exactly the values that keep substitution idempotent

  /** A known name may begin with what is pending. */
  predicate Begins(p: string) {
    || HasPrefix(Written("localWorkspaceFolderBasename"), p)
    || HasPrefix(Written("containerWorkspaceFolderBasename"), p)
    || HasPrefix(Written("devcontainerId"), p)
    || HasPrefix("${" + LOCAL_ENV, p)
    || HasPrefix(p, "${" + LOCAL_ENV)
  }

  lemma ShorterName(long: string, short: string, p: string)
    requires HasPrefix(long, short) && '}' !in p && HasPrefix(Written(short), p)
    ensures HasPrefix(Written(long), p)
  {
    assert Written(short)[|short| + 2] == '}';
    forall i | 0 <= i < |p| ensures Written(long)[i] == p[i] {
      if i >= 2 { assert Written(short)[i] == short[i - 2] == long[i - 2]; }
    }
  }

  lemma EnvName(x: string, p: string)
    requires HasPrefix(x, LOCAL_ENV) && '}' !in p && HasPrefix(Written(x), p)
    ensures HasPrefix("${" + LOCAL_ENV, p) || HasPrefix(p, "${" + LOCAL_ENV)
  {
    var q := "${" + LOCAL_ENV;
    assert forall i :: 0 <= i < |q| ==> Written(x)[i] == q[i];
  }

  lemma PendingNoBrace(p: string)
    requires Pending(p)
    ensures '}' !in p && |p| > 0
  {
    assert forall k :: 2 <= k < |p| ==> p[k] == p[2..][k - 2];
  }

  lemma KnownBegins(x: string, p: string)
    requires Recognised(x) && '}' !in p && HasPrefix(Written(x), p)
    ensures Begins(p)
  {
    assert HasPrefix("localWorkspaceFolderBasename", "localWorkspaceFolder");
    assert HasPrefix("containerWorkspaceFolderBasename", "containerWorkspaceFolder");
    hide HasPrefix, Written;
    if x == "localWorkspaceFolder" {
      ShorterName("localWorkspaceFolderBasename", x, p);
    } else if x == "containerWorkspaceFolder" {
      ShorterName("containerWorkspaceFolderBasename", x, p);
    } else if HasPrefix(x, LOCAL_ENV) {
      EnvName(x, p);
    }
  }

  lemma NameCompletes(y: string, p: string) returns (b: string)
    requires Proper(y) && Recognised(y) && HasPrefix(Written(y), p) && p != "" && '$' !in y
    ensures Completes(p, b, Recognised)
  {
    hide Recognised;
    b := Written(y)[|p|..];
    forall i | 0 <= i < |b| ensures b[i] != '$' { assert b[i] == Written(y)[|p| + i]; }
    assert p + b == Written(y);
  }

  lemma BeginsCompletes(p: string) returns (b: string)
    requires Pending(p) && Begins(p)
    ensures Completes(p, b, Recognised)
  {
    PendingNoBrace(p);
    NamesProper();
    if HasPrefix(p, "${" + LOCAL_ENV) {
      b := EnvCompletes(p);
    } else {
      hide HasPrefix, Written, Pending;
      if HasPrefix(Written("localWorkspaceFolderBasename"), p) {
        b := NameCompletes("localWorkspaceFolderBasename", p);
      } else if HasPrefix(Written("containerWorkspaceFolderBasename"), p) {
        b := NameCompletes("containerWorkspaceFolderBasename", p);
      } else if HasPrefix(Written("devcontainerId"), p) {
        b := NameCompletes("devcontainerId", p);
      } else {
        EnvPrefix(p);
        b := NameCompletes(LOCAL_ENV, p);
      }
    }
  }

  lemma EnvPrefix(p: string)
    requires HasPrefix("${" + LOCAL_ENV, p)
    ensures HasPrefix(Written(LOCAL_ENV), p) && Recognised(LOCAL_ENV) && Proper(LOCAL_ENV) && '$' !in LOCAL_ENV
  {
    assert forall i :: 0 <= i < |p| ==> Written(LOCAL_ENV)[i] == ("${" + LOCAL_ENV)[i];
  }

  lemma EnvCompletes(p: string) returns (b: string)
    requires '}' !in p && HasPrefix(p, "${" + LOCAL_ENV)
    ensures Completes(p, b, Recognised)
  {
    var q, y := "${" + LOCAL_ENV, p[2..];
    b := "}";
    assert p[0] == q[0] == '$' && p[1] == q[1] == '{';
    assert p + b == Written(y);
    assert HasPrefix(y, LOCAL_ENV) by {
      forall i | 0 <= i < |LOCAL_ENV| ensures y[i] == LOCAL_ENV[i] { assert p[i + 2] == q[i + 2]; }
    }
    hide HasPrefix, Written;
    assert Proper(y) && Recognised(y);
  }

  /** Which pending text no known name can complete, as a plain test. */
  lemma DeadIff(p: string)
    requires Pending(p)
    ensures Dead(p, Recognised) <==> !Begins(p)
  {
    PendingNoBrace(p);
    hide Recognised, Begins, HasPrefix, Pending;
    if Begins(p) {
      var b := BeginsCompletes(p);
      var y :| Proper(y) && Recognised(y) && p + b == Written(y);
      PrefixOfSum(p, b);
    } else {
      forall x | Proper(x) && Recognised(x) ensures !HasPrefix(Written(x), p) {
        if HasPrefix(Written(x), p) { KnownBegins(x, p); }
      }
    }
  }

  lemma PrefixOfSum(p: string, b: string)
    ensures HasPrefix(p + b, p)
  {
  }

  lemma RecognisedGrows()
    ensures GrowsPlainly(Recognised)
  {
    hide Recognised, Begins, Pending, Dead, Completes;
    forall p | Pending(p) && !Dead(p, Recognised) ensures exists b :: Completes(p, b, Recognised) {
      DeadIff(p);
      var b := BeginsCompletes(p);
    }
  }

  /** A host on which each known name has a value shorter than its reference. */
  const QUIET_HOST := Host("", "", map[])

  lemma QuietValue(x: string)
    requires Recognised(x)
    ensures |ResolveVar(x, QUIET_HOST, "")| < |Written(x)|
  {
    hide FirstFrom;
    assert Base("") == ".";
    hide Base;
  }

  /** A value of a known reference is settled exactly when no later pass, on any host, can change a text it was put into. */
  lemma SettledValueIff(ref: string, host: Host, containerFolder: string)
    requires Proper(ref) && Recognised(ref)
    ensures Settled(ResolveVar(ref, host, containerFolder), Recognised)
       <==> forall s, host', containerFolder' :: References(NegatedClass, s) == [ref] ==>
              Substitute(Substitute(s, host, containerFolder), host', containerFolder') == Substitute(s, host, containerFolder)
  {
    hide Substitute, Recognised, ResolveVar, Settled, References;
    if Settled(ResolveVar(ref, host, containerFolder), Recognised) {
      forall s, host', containerFolder' | References(NegatedClass, s) == [ref]
        ensures Substitute(Substitute(s, host, containerFolder), host', containerFolder') == Substitute(s, host, containerFolder)
      {
        assert SettledValues(s, host, containerFolder);
        SubstituteIdempotent(s, host, containerFolder, host', containerFolder');
      }
    } else {
      var s, host', containerFolder' := UnsettledChanges(ref, host, containerFolder);
    }
  }

  lemma UnsettledChanges(ref: string, host: Host, containerFolder: string) returns (s: string, host': Host, containerFolder': string)
    requires Proper(ref) && !Settled(ResolveVar(ref, host, containerFolder), Recognised)
    ensures References(NegatedClass, s) == [ref]
    ensures Substitute(Substitute(s, host, containerFolder), host', containerFolder') != Substitute(s, host, containerFolder)
  {
    var value := Resolver(host, containerFolder);
    assert value(ref) == ResolveVar(ref, host, containerFolder);
    RecognisedGrows();
    hide Recognised, ResolveVar, Settled, References, GrowsPlainly, Expand;
    var x;
    s, x := UnsettledShows(ref, value, Recognised);
    var out := Expand(NegatedClass, s, value);
    host', containerFolder' := QUIET_HOST, "";
    var later := Resolver(host', containerFolder');
    QuietValue(x);
    forall r | r in References(NegatedClass, out) ensures |later(r)| <= |Written(r)| {
      if Recognised(r) { QuietValue(r); } else { UnknownValue(r, host', containerFolder'); }
    }
    ExpandShrinks(out, later, x);
  }

  /** The clean values are exactly those that leave nothing to substitute wherever they are put in. */
  lemma CleanValueIff(ref: string, host: Host, containerFolder: string)
    requires ref != "" && '}' !in ref
    ensures Clean(ResolveVar(ref, host, containerFolder))
       <==> forall s :: References(NegatedClass, s) == [ref] ==> References(NegatedClass, Substitute(s, host, containerFolder)) == []
  {
    var value := Resolver(host, containerFolder);
    assert value(ref) == ResolveVar(ref, host, containerFolder);
    if Clean(value(ref)) {
      CleanIff(ref, value);
      forall s | References(NegatedClass, s) == [ref] ensures References(NegatedClass, Substitute(s, host, containerFolder)) == [] {
        assert References(NegatedClass, Expand(NegatedClass, s, value)) == [];
      }
    } else {
      UncleanReveals(ref, value);
      assert References(NegatedClass, Substitute(Revealing(ref, value(ref)), host, containerFolder)) != [];
    }
  }

  lemma {:induction false} TrailingSlashes(path: string, slashes: string)
    requires path != "" && path[|path| - 1] != '/' && forall k :: 0 <= k < |slashes| ==> slashes[k] == '/'
    ensures WithoutTrailingSlashes(path + slashes) == path
  {
    if slashes == "" {
      assert path + slashes == path;
    } else {
      var fewer := slashes[..|slashes| - 1];
      assert (path + slashes)[..|path + slashes| - 1] == path + fewer;
      TrailingSlashes(path, fewer);
    }
  }

  lemma BaseIsLastPart(dir: string, name: string, slashes: string)
    requires name != "" && '/' !in name && forall k :: 0 <= k < |slashes| ==> slashes[k] == '/'
    ensures Base(dir + "/" + name + slashes) == name
  {
    var path := dir + "/" + name;
    assert path[|dir|] == '/' && path[|path| - 1] == name[|name| - 1];
    assert path[|dir| + 1..] == name;
    assert forall k :: |dir| < k < |path| ==> path[k] == name[k - |dir| - 1];
    TrailingSlashes(path, slashes);
    hide WithoutTrailingSlashes, LastBefore;
  }

  /** The base of a path without a name: a dot for none, a slash for nothing but slashes; a lone name is its own base. */
  lemma BaseOfOthers(name: string, slashes: string)
    requires forall k :: 0 <= k < |slashes| ==> slashes[k] == '/'
    ensures Base("") == "." && (slashes != "" ==> Base(slashes) == "/")
    ensures name != "" && '/' !in name ==> Base(name + slashes) == name
  {
    OnlySlashes(slashes);
    if name != "" && '/' !in name { TrailingSlashes(name, slashes); }
    hide WithoutTrailingSlashes, LastBefore;
    assert name != "" ==> name[0..] == name && name + slashes != "";
  }

  lemma {:induction false} OnlySlashes(slashes: string)
    requires forall k :: 0 <= k < |slashes| ==> slashes[k] == '/'
    ensures WithoutTrailingSlashes(slashes) == ""
  {
    if slashes != "" { OnlySlashes(slashes[..|slashes| - 1]); }
  }

  /** A reference to a host variable reads it, or else the text after the second colon. */
  lemma LocalEnvValues(name: string, fallback: string, host: Host, containerFolder: string)
    requires ':' !in name
    ensures ResolveVar("localEnv:" + name, host, containerFolder) == if name in host.env then host.env[name] else ""
    ensures ResolveVar("localEnv:" + name + ":" + fallback, host, containerFolder)
         == if name in host.env && host.env[name] != "" then host.env[name] else fallback
  {
    var rest := name + ":" + fallback;
    assert LOCAL_ENV + name + ":" + fallback == LOCAL_ENV + rest;
    AfterLocalEnv(name, host, containerFolder);
    AfterLocalEnv(rest, host, containerFolder);
    LocalEnvSplits(name, fallback, host.env);
    hide *;
  }

  lemma LocalEnvSplits(name: string, fallback: string, env: Env)
    requires ':' !in name
    ensures LocalEnv(name, env) == if name in env then env[name] else ""
    ensures LocalEnv(name + ":" + fallback, env) == if name in env && env[name] != "" then env[name] else fallback
  {
    hide FirstFrom;
    var rest := name + ":" + fallback;
    assert rest[|name|] == ':' && forall k :: 0 <= k < |name| ==> rest[k] == name[k];
    assert IndexOf(rest, ':') == |name|;
    assert rest[..|name|] == name && rest[|name| + 1..] == fallback;
  }

  lemma AfterLocalEnv(rest: string, host: Host, containerFolder: string)
    ensures Recognised(LOCAL_ENV + rest) && ResolveVar(LOCAL_ENV + rest, host, containerFolder) == LocalEnv(rest, host.env)
  {
    var inner := LOCAL_ENV + rest;
    assert inner[5] == 'E' && "localWorkspaceFolder"[5] == 'W' && "localWorkspaceFolderBasename"[5] == 'W';
    assert inner[0] == 'l' && "containerWorkspaceFolder"[0] == 'c' && "containerWorkspaceFolderBasename"[0] == 'c';
    assert "devcontainerId"[0] == 'd';
    assert inner[|LOCAL_ENV|..] == rest;
  }

  /** The folder references, on their own in a text. */
  lemma FolderValues(host: Host, containerFolder: string)
    ensures Substitute(Written("localWorkspaceFolder"), host, containerFolder) == host.folder
    ensures Substitute(Written("localWorkspaceFolderBasename"), host, containerFolder) == Base(host.folder)
    ensures Substitute(Written("containerWorkspaceFolder"), host, containerFolder) == containerFolder
    ensures Substitute(Written("containerWorkspaceFolderBasename"), host, containerFolder) == Base(containerFolder)
    ensures Substitute(Written("devcontainerId"), host, containerFolder) == host.devcontainerID
  {
    NamesProper();
    FolderResolves(host, containerFolder);
    hide *;
    AloneIsValue("localWorkspaceFolder", host, containerFolder);
    AloneIsValue("localWorkspaceFolderBasename", host, containerFolder);
    AloneIsValue("containerWorkspaceFolder", host, containerFolder);
    AloneIsValue("containerWorkspaceFolderBasename", host, containerFolder);
    AloneIsValue("devcontainerId", host, containerFolder);
  }

  lemma NamesProper()
    ensures '}' !in "localWorkspaceFolder" && '}' !in "localWorkspaceFolderBasename" && '}' !in "containerWorkspaceFolder"
    ensures '}' !in "containerWorkspaceFolderBasename" && '}' !in "devcontainerId"
  {
  }

  lemma FolderResolves(host: Host, containerFolder: string)
    ensures ResolveVar("localWorkspaceFolder", host, containerFolder) == host.folder
    ensures ResolveVar("localWorkspaceFolderBasename", host, containerFolder) == Base(host.folder)
    ensures ResolveVar("containerWorkspaceFolder", host, containerFolder) == containerFolder
    ensures ResolveVar("containerWorkspaceFolderBasename", host, containerFolder) == Base(containerFolder)
    ensures ResolveVar("devcontainerId", host, containerFolder) == host.devcontainerID
  {
    hide Base, LocalEnv;
    assert "localWorkspaceFolder"[0] == 'l' && "localWorkspaceFolderBasename"[0] == 'l' && "containerWorkspaceFolder"[0] == 'c';
  }

  lemma AloneIsValue(ref: string, host: Host, containerFolder: string)
    requires ref != "" && '}' !in ref
    ensures Substitute(Written(ref), host, containerFolder) == ResolveVar(ref, host, containerFolder)
  {
    WrittenExpands(ref, "", Resolver(host, containerFolder));
    assert Written(ref) + "" == Written(ref);
    hide ResolveVar;
  }

  /** An empty value can bring two halves of a reference together, so clean values must not be empty. */
  lemma EmptyValueRevives(host: Host, containerFolder: string, ref: string, b: string)
    requires ref != "" && '}' !in ref && ResolveVar(ref, host, containerFolder) == ""
    requires '$' !in b
    ensures Substitute("$" + Written(ref) + ("{" + b + "}"), host, containerFolder) == Written(b)
  {
    var tail, value := "{" + b + "}", Resolver(host, containerFolder);
    DollarBefore(ref, tail, value);
    NoDollarExpands(tail, value);
    TwoHalves(b, tail);
    hide Expand, ResolveVar, Written;
    assert "$" + value(ref) == "$";
  }

  lemma TwoHalves(b: string, tail: string)
    requires tail == "{" + b + "}"
    ensures "$" + tail == Written(b)
  {
  }

  /** Unset host variables have such empty values. */
  lemma UnsetIsEmpty(host: Host, containerFolder: string, name: string)
    requires name !in host.env && ':' !in name
    ensures Recognised(LOCAL_ENV + name) && ResolveVar(LOCAL_ENV + name, host, containerFolder) == ""
  {
    LocalEnvValues(name, "", host, containerFolder);
    AfterLocalEnv(name, host, containerFolder);
  }

  // ---------------------------------------------------------------------
  // The configuration, substituted in place

  /** `substituteMountEntry`: strings, and the string members of an object. */
  function SubstituteMount(m: Raw, host: Host, containerFolder: string): Raw {
    if AsString(m).Some? then Some(String(Substitute(AsString(m).value, host, containerFolder)))
    else if m.Some? && m.value.Object? then
      Some(Object(map k | k in m.value.fields :: SubstituteMember(m.value.fields[k], host, containerFolder)))
    else m
  }

  function SubstituteMember(v: Json, host: Host, containerFolder: string): Json {
    if v.String? then String(Substitute(v.text, host, containerFolder)) else v
  }

  /** `r` is `m` with its texts substituted: a string, or the string members of an object. */
  ghost predicate MountSubstituted(m: Raw, r: Raw, host: Host, containerFolder: string) {
    match m
    case Some(String(s)) => r == Some(String(Substitute(s, host, containerFolder)))
    case Some(Null) => r == Some(String(""))
    case Some(Object(fields)) =>
      && r.Some? && r.value.Object? && r.value.fields.Keys == fields.Keys
      && forall k :: k in fields ==>
           r.value.fields[k] == if fields[k].String? then String(Substitute(fields[k].text, host, containerFolder)) else fields[k]
    case _ => r == m
  }

  lemma SubstituteMountMeans(m: Raw, host: Host, containerFolder: string)
    ensures MountSubstituted(m, SubstituteMount(m, host, containerFolder), host, containerFolder)
  {
    EmptyText(host);
    hide Substitute;
  }

  /** The substituted part of a configuration, as a value. */
  datatype Texts = Texts(
    workspaceFolder: string,
    workspaceMount: string,
    mounts: seq<Raw>,
    containerEnv: map<string, string>,
    runArgs: seq<string>)

  /** What one pass makes of a configuration: the workspace folder first, from its own old text. */
  function SubstitutedTexts(t: Texts, host: Host): Texts {
    var folder := Substitute(t.workspaceFolder, host, t.workspaceFolder);
    Texts(
      folder,
      Substitute(t.workspaceMount, host, folder),
      seq(|t.mounts|, i requires 0 <= i < |t.mounts| => SubstituteMount(t.mounts[i], host, folder)),
      map k | k in t.containerEnv :: Substitute(t.containerEnv[k], host, folder),
      seq(|t.runArgs|, i requires 0 <= i < |t.runArgs| => Substitute(t.runArgs[i], host, folder)))
  }

  /** The part of `spec.Config` that `Up` works with. */
  class Config {
    var workspaceFolder: string
    var workspaceMount: string
    var mounts: seq<Raw>
    var containerEnv: map<string, string>
    var runArgs: seq<string>
    var onCreateCommand: Raw
    var updateContentCommand: Raw
    var postCreateCommand: Raw
    var postStartCommand: Raw

    constructor (t: Texts, onCreate: Raw, updateContent: Raw, postCreate: Raw, postStart: Raw)
      ensures Content() == t
      ensures onCreateCommand == onCreate && updateContentCommand == updateContent
      ensures postCreateCommand == postCreate && postStartCommand == postStart
    {
      workspaceFolder, workspaceMount, mounts := t.workspaceFolder, t.workspaceMount, t.mounts;
      containerEnv, runArgs := t.containerEnv, t.runArgs;
      onCreateCommand, updateContentCommand := onCreate, updateContent;
      postCreateCommand, postStartCommand := postCreate, postStart;
    }

    function Content(): Texts
      reads this
    {
      Texts(workspaceFolder, workspaceMount, mounts, containerEnv, runArgs)
    }

    /** `SubstituteAll`. */
    method SubstituteAll(host: Host)
      modifies this`workspaceFolder, this`workspaceMount, this`mounts, this`containerEnv, this`runArgs
      ensures Content() == SubstitutedTexts(old(Content()), host)
      ensures workspaceFolder == Substitute(old(workspaceFolder), host, old(workspaceFolder))
      ensures workspaceMount == Substitute(old(workspaceMount), host, workspaceFolder)
      ensures |mounts| == |old(mounts)|
      ensures forall i :: 0 <= i < |mounts| ==> MountSubstituted(old(mounts)[i], mounts[i], host, workspaceFolder)
      ensures containerEnv.Keys == old(containerEnv).Keys
      ensures forall k :: k in containerEnv ==> containerEnv[k] == Substitute(old(containerEnv)[k], host, workspaceFolder)
      ensures |runArgs| == |old(runArgs)|
      ensures forall i :: 0 <= i < |runArgs| ==> runArgs[i] == Substitute(old(runArgs)[i], host, workspaceFolder)
    {
      hide Substitute, SubstituteMount, MountSubstituted;
      if workspaceFolder != "" {
        workspaceFolder := Substitute(workspaceFolder, host, workspaceFolder);
      } else {
        EmptyText(host);
      }
      if workspaceMount != "" {
        workspaceMount := Substitute(workspaceMount, host, workspaceFolder);
      } else {
        EmptyText(host);
      }
      SubstituteMounts(host);
      SubstituteEnv(host);
      SubstituteRunArgs(host);
    }

    method SubstituteMounts(host: Host)
      modifies this`mounts
      ensures |mounts| == |old(mounts)|
      ensures forall k :: 0 <= k < |mounts| ==> mounts[k] == SubstituteMount(old(mounts)[k], host, workspaceFolder)
      ensures forall k :: 0 <= k < |mounts| ==> MountSubstituted(old(mounts)[k], mounts[k], host, workspaceFolder)
    {
      hide SubstituteMount, MountSubstituted;
      for i := 0 to |mounts|
        invariant |mounts| == |old(mounts)|
        invariant forall k :: 0 <= k < i ==> mounts[k] == SubstituteMount(old(mounts)[k], host, workspaceFolder)
        invariant forall k :: i <= k < |mounts| ==> mounts[k] == old(mounts)[k]
      {
        mounts := mounts[i := SubstituteMount(mounts[i], host, workspaceFolder)];
      }
      forall k | 0 <= k < |mounts| ensures MountSubstituted(old(mounts)[k], mounts[k], host, workspaceFolder) {
        SubstituteMountMeans(old(mounts)[k], host, workspaceFolder);
      }
    }

    /** The keys of a Go map are visited in any order. */
    method SubstituteEnv(host: Host)
      modifies this`containerEnv
      ensures containerEnv.Keys == old(containerEnv).Keys
      ensures forall k :: k in containerEnv ==> containerEnv[k] == Substitute(old(containerEnv)[k], host, workspaceFolder)
    {
      hide Substitute;
      var keys := containerEnv.Keys;
      while keys != {}
        invariant keys <= containerEnv.Keys == old(containerEnv).Keys
        invariant forall k :: k in containerEnv && k !in keys ==> containerEnv[k] == Substitute(old(containerEnv)[k], host, workspaceFolder)
        invariant forall k :: k in keys ==> containerEnv[k] == old(containerEnv)[k]
        decreases |keys|
      {
        var k :| k in keys;
        containerEnv := containerEnv[k := Substitute(containerEnv[k], host, workspaceFolder)];
        keys := keys - {k};
      }
    }

    method SubstituteRunArgs(host: Host)
      modifies this`runArgs
      ensures |runArgs| == |old(runArgs)|
      ensures forall k :: 0 <= k < |runArgs| ==> runArgs[k] == Substitute(old(runArgs)[k], host, workspaceFolder)
    {
      hide Substitute;
      for i := 0 to |runArgs|
        invariant |runArgs| == |old(runArgs)|
        invariant forall k :: 0 <= k < i ==> runArgs[k] == Substitute(old(runArgs)[k], host, workspaceFolder)
        invariant forall k :: i <= k < |runArgs| ==> runArgs[k] == old(runArgs)[k]
      {
        runArgs := runArgs[i := Substitute(runArgs[i], host, workspaceFolder)];
      }
    }
  }

  lemma EmptyText(host: Host)
    ensures forall containerFolder :: Substitute("", host, containerFolder) == ""
  {
  }

  ghost predicate SettledMount(m: Raw, host: Host, containerFolder: string) {
    && (AsString(m).Some? ==> SettledValues(AsString(m).value, host, containerFolder))
    && (m.Some? && m.value.Object? ==>
          forall k :: k in m.value.fields && m.value.fields[k].String? ==> SettledValues(m.value.fields[k].text, host, containerFolder))
  }

  /** Each known reference anywhere in the configuration has a settled value. */
  ghost predicate SettledTexts(t: Texts, host: Host) {
    var folder := Substitute(t.workspaceFolder, host, t.workspaceFolder);
    && SettledValues(t.workspaceFolder, host, t.workspaceFolder)
    && SettledValues(t.workspaceMount, host, folder)
    && (forall i :: 0 <= i < |t.mounts| ==> SettledMount(t.mounts[i], host, folder))
    && (forall k :: k in t.containerEnv ==> SettledValues(t.containerEnv[k], host, folder))
    && (forall i :: 0 <= i < |t.runArgs| ==> SettledValues(t.runArgs[i], host, folder))
  }

  lemma MountIdempotent(m: Raw, host: Host, folder: string, host': Host, folder': string)
    requires SettledMount(m, host, folder)
    ensures SubstituteMount(SubstituteMount(m, host, folder), host', folder') == SubstituteMount(m, host, folder)
  {
    if AsString(m).Some? {
      SubstituteIdempotent(AsString(m).value, host, folder, host', folder');
    } else if m.Some? && m.value.Object? {
      var once := SubstituteMount(m, host, folder);
      hide Substitute, SettledValues;
      forall k | k in m.value.fields
        ensures SubstituteMember(once.value.fields[k], host', folder') == once.value.fields[k]
      {
        if m.value.fields[k].String? { SubstituteIdempotent(m.value.fields[k].text, host, folder, host', folder'); }
      }
      assert SubstituteMount(once, host', folder').value.fields == once.value.fields;
    }
  }

  /** A second pass over a configuration changes nothing, on any host. */
  lemma ConfigIdempotent(t: Texts, host: Host, host': Host)
    requires SettledTexts(t, host)
    ensures SubstitutedTexts(SubstitutedTexts(t, host), host') == SubstitutedTexts(t, host)
  {
    var once := SubstitutedTexts(t, host);
    var twice := SubstitutedTexts(once, host');
    var folder := once.workspaceFolder;
    hide Substitute, SubstituteMount, SettledValues, SettledMount;
    SubstituteIdempotent(t.workspaceFolder, host, t.workspaceFolder, host', folder);
    SubstituteIdempotent(t.workspaceMount, host, folder, host', folder);
    forall i | 0 <= i < |t.mounts| ensures twice.mounts[i] == once.mounts[i] {
      MountIdempotent(t.mounts[i], host, folder, host', folder);
    }
    forall k | k in t.containerEnv ensures twice.containerEnv[k] == once.containerEnv[k] {
      SubstituteIdempotent(t.containerEnv[k], host, folder, host', folder);
    }
    forall i | 0 <= i < |t.runArgs| ensures twice.runArgs[i] == once.runArgs[i] {
      SubstituteIdempotent(t.runArgs[i], host, folder, host', folder);
    }
    assert twice.mounts == once.mounts && twice.runArgs == once.runArgs;
    assert twice.containerEnv == once.containerEnv;
  }

  // ---------------------------------------------------------------------
  // A workspace folder that names itself

  const SELF := "containerWorkspaceFolder"

  /** One pass over a workspace folder, which is also the value of its own references. */
  function FolderPass(folder: string, host: Host): string {
    Substitute(folder, host, folder)
  }

  function FolderAfter(folder: string, host: Host, passes: nat): string {
    if passes == 0 then folder else FolderPass(FolderAfter(folder, host, passes - 1), host)
  }

  /** The folder names itself, and no other known reference occurs in it. */
  ghost predicate NamesOnlyItself(folder: string) {
    && SELF in References(NegatedClass, folder)
    && forall r :: r in References(NegatedClass, folder) && Recognised(r) ==> r == SELF
  }

  /** A folder that names itself is no settled text. */
  lemma SelfReferenceUnsettled(t: Texts, host: Host)
    requires SELF in References(NegatedClass, t.workspaceFolder)
    ensures SubstitutedTexts(t, host).workspaceFolder == FolderPass(t.workspaceFolder, host)
    ensures !SettledTexts(t, host)
  {
    var folder := t.workspaceFolder;
    assert ResolveVar(SELF, host, folder) == folder && Recognised(SELF);
    hide ResolveVar, References, Recognised, Substitute;
    assert !SettledValues(folder, host, folder);
  }

  /** A folder whose known references are all to itself is left alone if it is the reference, and lengthened otherwise. */
  lemma SelfReferenceLengthens(folder: string, host: Host)
    requires NamesOnlyItself(folder)
    ensures FolderPass(folder, host) == folder <==> folder == Written(SELF)
    ensures folder != Written(SELF) ==> |FolderPass(folder, host)| > |folder|
  {
    var value := Resolver(host, folder);
    assert value(SELF) == folder;
    ReferenceFits(folder, SELF);
    hide Recognised;
    forall r | r in References(NegatedClass, folder) ensures |value(r)| >= |Written(r)| {
      if !Recognised(r) { UnknownValue(r, host, folder); }
    }
    hide ResolveVar, References, Expand, Written;
    ExpandGrows(folder, value, SELF);
    if folder == Written(SELF) { SelfReferenceAlone(host); }
  }

  lemma UnknownValue(r: string, host: Host, containerFolder: string)
    requires !Recognised(r)
    ensures ResolveVar(r, host, containerFolder) == Written(r)
  {
  }

  lemma SelfReferenceAlone(host: Host)
    ensures FolderPass(Written(SELF), host) == Written(SELF)
  {
    NamesProper();
    AloneIsValue(SELF, host, Written(SELF));
    FolderResolves(host, Written(SELF));
    hide *;
  }

  /** Without a dollar sign around the reference, a pass doubles what is around it. */
  lemma SelfReferenceDoubles(a: string, b: string, host: Host)
    requires '$' !in a && '$' !in b
    ensures NamesOnlyItself(a + Written(SELF) + b)
    ensures FolderPass(a + Written(SELF) + b, host) == (a + a) + Written(SELF) + (b + b)
  {
    var folder := a + Written(SELF) + b;
    NamesProper();
    BetweenPlain(a, SELF, b, Resolver(host, folder));
    FolderResolves(host, folder);
    hide *;
    assert a + folder + b == (a + a) + Written(SELF) + (b + b);
  }

  /** Such a folder grows with each pass, unless there is nothing around the reference. */
  lemma {:induction false} SelfReferenceGrows(a: string, b: string, host: Host, passes: nat)
    requires '$' !in a && '$' !in b
    ensures var now, next := FolderAfter(a + Written(SELF) + b, host, passes), FolderAfter(a + Written(SELF) + b, host, passes + 1);
            if a == "" && b == "" then next == now else |next| > |now|
  {
    var x, y := SelfReferenceForm(a, b, host, passes);
    SelfReferenceDoubles(x, y, host);
    hide Substitute, Written;
  }

  lemma {:induction false} SelfReferenceForm(a: string, b: string, host: Host, passes: nat) returns (x: string, y: string)
    requires '$' !in a && '$' !in b
    ensures '$' !in x && '$' !in y && FolderAfter(a + Written(SELF) + b, host, passes) == x + Written(SELF) + y
    ensures (x == "" <==> a == "") && (y == "" <==> b == "")
  {
    if passes == 0 {
      x, y := a, b;
    } else {
      x, y := SelfReferenceForm(a, b, host, passes - 1);
      SelfReferenceDoubles(x, y, host);
      hide Written, FolderPass;
      x, y := x + x, y + y;
    }
  }

  /** With a dollar sign growth can come to an end: this folder is lengthened once, and then stays on every host. */
  lemma SelfReferenceEnds(host: Host, host': Host)
    ensures var folder := "{$" + Written(SELF);
            && |FolderPass(folder, host)| > |folder|
            && FolderPass(FolderPass(folder, host), host') == FolderPass(folder, host)
  {
    var folder, x := "{$" + Written(SELF), "$${" + SELF;
    NamesProper();
    FolderResolves(host, folder);
    BraceDollar(SELF, Resolver(host, folder));
    var once := FolderPass(folder, host);
    Nested(SELF);
    NotAName(x);
    assert '$' !in "{" && '$' !in "";
    hide *;
    assert once == "{" + Written(x) + "" && |folder| == 2 + |Written(SELF)| && |once| == 2 + |folder|;
    BetweenPlain("{", x, "", Resolver(host', once));
    UnknownUnchanged(once, host', once);
  }

  lemma Nested(y: string)
    ensures "{$" + ("{$" + Written(y)) == "{" + Written("$${" + y) + ""
  {
  }

  lemma NotAName(x: string)
    requires x == "$${" + SELF
    ensures Proper(x) && !Recognised(x)
  {
    NamesProper();
    assert x[0] == '$' && "localWorkspaceFolder"[0] == 'l' && "localWorkspaceFolderBasename"[0] == 'l';
    assert SELF[0] == 'c' && "containerWorkspaceFolderBasename"[0] == 'c' && "devcontainerId"[0] == 'd' && LOCAL_ENV[0] == 'l';
  }

  lemma BraceDollar(x: string, value: string -> string)
    requires Proper(x)
    ensures Expand(NegatedClass, "{$" + Written(x), value) == "{$" + value(x)
  {
    var s := "{$" + Written(x);
    assert s[0] == '{' && s[1..] == "$" + Written(x) + "";
    DollarBefore(x, "", value);
    hide Written, Match;
  }
}
