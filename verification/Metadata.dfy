/**
 The `devcontainer.metadata` label: what is written for a list of features
 (features/dockerfile.go) and what is read back from an image (up.go).  The
 property names of a label entry are an enumeration here.
 */
module Metadata {
  import opened Wrappers
  import opened Collections
  import opened FeatureData
  import opened Vars

  datatype Stage = OnCreate | UpdateContent | PostCreate | PostStart | PostAttach

  datatype Property =
    | Id | Version | Name | Options | ContainerEnv | Init | Privileged | CapAdd | SecurityOpt
    | Entrypoint | Mounts | Command(stage: Stage) | Customizations
    | RemoteUser | ContainerUser | WorkspaceFolder
    | OtherProperty(name: string)

  /** One JSON object of the label. */
  type LabelEntry = map<Property, Json>

  /** The label value, parsed as JSON. */
  datatype Label = Absent | Entries(entries: seq<LabelEntry>) | Single(entry: LabelEntry) | Malformed

  // ---------------------------------------------------------------------
  // Decoding one entry

  /** The fields of `metadataEntry` that matter for creating a container. */
  datatype Entry = Entry(
    id: string,
    init: bool,
    privileged: bool,
    capAdd: seq<string>,
    securityOpt: seq<string>,
    entrypoint: string,
    mounts: Raw,
    commands: Stage -> Raw,
    containerEnv: map<string, string>)

  /** Absent and `null` members leave a field at its zero value; a member of the wrong type is an error. */
  function GetString(o: LabelEntry, p: Property): Option<string> {
    if p !in o || o[p].Null? then Some("") else if o[p].String? then Some(o[p].text) else None
  }

  function GetBool(o: LabelEntry, p: Property): Option<bool> {
    if p !in o || o[p].Null? then Some(false) else if o[p].Bool? then Some(o[p].flag) else None
  }

  function GetStrings(o: LabelEntry, p: Property): Option<seq<string>> {
    if p !in o then Some([]) else AsArray(Some(o[p]))
  }

  function GetRaw(o: LabelEntry, p: Property): Raw {
    if p in o then Some(o[p]) else None
  }

  function GetEnv(o: LabelEntry, p: Property): Option<map<string, string>> {
    if p !in o || o[p].Null? then Some(map[])
    else if o[p].Object? && forall k :: k in o[p].fields ==> o[p].fields[k].String? || o[p].fields[k].Null? then
      Some(map k | k in o[p].fields :: if o[p].fields[k].String? then o[p].fields[k].text else "")
    else None
  }

  /** Decoding a JSON object into a `metadataEntry`. */
  function Decode(o: LabelEntry): Option<Entry> {
    var id, init, privileged := GetString(o, Id), GetBool(o, Init), GetBool(o, Privileged);
    var capAdd, securityOpt := GetStrings(o, CapAdd), GetStrings(o, SecurityOpt);
    var entrypoint, env := GetString(o, Entrypoint), GetEnv(o, ContainerEnv);
    if id.None? || init.None? || privileged.None? || capAdd.None? || securityOpt.None? || entrypoint.None? || env.None?
       || GetString(o, RemoteUser).None? || GetString(o, ContainerUser).None? || GetString(o, WorkspaceFolder).None? then None
    else
      Some(Entry(id.value, init.value, privileged.value, capAdd.value, securityOpt.value, entrypoint.value,
                 GetRaw(o, Mounts), CommandsIn(o), env.value))
  }

  function CommandsIn(o: LabelEntry): Stage -> Raw {
    stage => GetRaw(o, Command(stage))
  }

  function DecodeAll(os: seq<LabelEntry>): Option<seq<Entry>> {
    if os == [] then Some([])
    else
      var front, last := DecodeAll(os[..|os| - 1]), Decode(os[|os| - 1]);
      if front.None? || last.None? then None else Some(front.value + [last.value])
  }

  /** The entries of a label; one that cannot be decoded spoils the whole label. */
  function EntriesOf(metadata: Label): seq<Entry> {
    match metadata
    case Entries(os) => if DecodeAll(os).Some? then DecodeAll(os).value else []
    case Single(o) => if Decode(o).Some? then [Decode(o).value] else []
    case _ => []
  }

  // ---------------------------------------------------------------------
  // What a list of entries amounts to

  /** Entries without an ID come from a configuration and are skipped. */
  function Named(es: seq<Entry>): seq<Entry> {
    if es == [] then []
    else Named(es[..|es| - 1]) + if es[|es| - 1].id != "" then [es[|es| - 1]] else []
  }

  function Caps(es: seq<Entry>): seq<string> {
    if es == [] then [] else Caps(es[..|es| - 1]) + es[|es| - 1].capAdd
  }

  function SecurityOpts(es: seq<Entry>): seq<string> {
    if es == [] then [] else SecurityOpts(es[..|es| - 1]) + es[|es| - 1].securityOpt
  }

  function LastEntrypoint(es: seq<Entry>): string {
    if es == [] then ""
    else if es[|es| - 1].entrypoint != "" then es[|es| - 1].entrypoint
    else LastEntrypoint(es[..|es| - 1])
  }

  /** The mounts of one entry; a value that is not an array has none. */
  function MountsIn(raw: Raw): seq<Raw> {
    match raw
    case Some(Array(items)) => seq(|items|, i requires 0 <= i < |items| => Some(items[i]))
    case _ => []
  }

  function AllMounts(es: seq<Entry>): seq<Raw> {
    if es == [] then [] else AllMounts(es[..|es| - 1]) + MountsIn(es[|es| - 1].mounts)
  }

  function Commands(es: seq<Entry>, stage: Stage): seq<Raw> {
    if es == [] then []
    else
      var c := es[|es| - 1].commands(stage);
      Commands(es[..|es| - 1], stage) + if IsEmpty(c) then [] else [c]
  }

  function EnvOf(es: seq<Entry>): map<string, string> {
    if es == [] then map[] else EnvOf(es[..|es| - 1]) + es[|es| - 1].containerEnv
  }

  predicate AnyInit(es: seq<Entry>) {
    exists i :: 0 <= i < |es| && es[i].init
  }

  predicate AnyPrivileged(es: seq<Entry>) {
    exists i :: 0 <= i < |es| && es[i].privileged
  }

  /** The elements of a list, each at its first occurrence. */
  function FirstOccurrences(ss: seq<string>): seq<string> {
    if ss == [] then []
    else
      var front, last := ss[..|ss| - 1], ss[|ss| - 1];
      FirstOccurrences(front) + if last in front then [] else [last]
  }

  /** `x` occurs before the first `y`. */
  ghost predicate AppearsBefore(ss: seq<string>, x: string, y: string) {
    exists i :: 0 <= i < |ss| && ss[i] == x && y !in ss[..i]
  }

  lemma AppearsBeforeMore(ss: seq<string>, last: string, x: string, y: string)
    ensures AppearsBefore(ss, x, y) ==> AppearsBefore(ss + [last], x, y)
    ensures x in ss && last !in ss ==> AppearsBefore(ss + [last], x, last)
  {
    forall i | 0 <= i < |ss| ensures (ss + [last])[i] == ss[i] && (ss + [last])[..i] == ss[..i] {}
  }

  /** Nothing is repeated or lost, and the order is that of first appearance. */
  lemma {:induction false} FirstOccurrencesFacts(ss: seq<string>)
    ensures Distinct(FirstOccurrences(ss)) && SetOf(FirstOccurrences(ss)) == SetOf(ss)
    ensures forall i, j :: 0 <= i < j < |FirstOccurrences(ss)| ==>
              AppearsBefore(ss, FirstOccurrences(ss)[i], FirstOccurrences(ss)[j])
  {
    if ss == [] {
    } else {
      var front, last := ss[..|ss| - 1], ss[|ss| - 1];
      FirstOccurrencesFacts(front);
      assert ss == front + [last];
      assert SetOf(ss) == SetOf(front) + {last};
      var r, all := FirstOccurrences(front), FirstOccurrences(ss);
      if last !in front {
        assert last !in SetOf(r);
        assert SetOf(r + [last]) == SetOf(r) + {last};
      } else {
        assert last in SetOf(front);
      }
      hide AppearsBefore;
      forall i, j | 0 <= i < j < |all| ensures AppearsBefore(ss, all[i], all[j]) {
        assert r[i] in SetOf(r);
        AppearsBeforeMore(front, last, all[i], all[j]);
      }
    }
  }

  /** `uniqueStrings`. */
  method UniqueStrings(ss: seq<string>) returns (result: seq<string>)
    ensures result == FirstOccurrences(ss)
  {
    var seen: set<string> := {};
    result := [];
    for i := 0 to |ss|
      invariant seen == SetOf(ss[..i])
      invariant result == FirstOccurrences(ss[..i])
    {
      assert ss[..i + 1] == ss[..i] + [ss[i]];
      assert ss[i] in seen <==> ss[i] in ss[..i];
      if ss[i] in seen {
        continue;
      }
      seen := seen + {ss[i]};
      result := result + [ss[i]];
    }
    assert ss[..|ss|] == ss;
  }

  /** `imageMetadata`. */
  datatype ImageMeta = ImageMeta(
    init: bool,
    privileged: bool,
    capAdd: seq<string>,
    securityOpt: seq<string>,
    entrypoint: string,
    mounts: seq<Raw>,
    onCreateCommands: seq<Raw>,
    updateContentCommands: seq<Raw>,
    postCreateCommands: seq<Raw>,
    postStartCommands: seq<Raw>,
    postAttachCommands: seq<Raw>,
    containerEnv: map<string, string>)

  /** Flags are ORed, lists joined in order, the last entrypoint and the last value of a variable win. */
  function Gathered(es: seq<Entry>): ImageMeta {
    ImageMeta(AnyInit(es), AnyPrivileged(es), Caps(es), SecurityOpts(es), LastEntrypoint(es), AllMounts(es),
              Commands(es, OnCreate), Commands(es, UpdateContent), Commands(es, PostCreate), Commands(es, PostStart),
              Commands(es, PostAttach), EnvOf(es))
  }

  /** The same with capabilities and security options de-duplicated. */
  function Combined(es: seq<Entry>): ImageMeta {
    Gathered(es).(capAdd := FirstOccurrences(Caps(es)), securityOpt := FirstOccurrences(SecurityOpts(es)))
  }

  /** One entry more. */
  function Absorbed(meta: ImageMeta, e: Entry): ImageMeta {
    ImageMeta(meta.init || e.init, meta.privileged || e.privileged, meta.capAdd + e.capAdd, meta.securityOpt + e.securityOpt,
              if e.entrypoint != "" then e.entrypoint else meta.entrypoint, meta.mounts + MountsIn(e.mounts),
              Appended(meta.onCreateCommands, e.commands(OnCreate)), Appended(meta.updateContentCommands, e.commands(UpdateContent)),
              Appended(meta.postCreateCommands, e.commands(PostCreate)), Appended(meta.postStartCommands, e.commands(PostStart)),
              Appended(meta.postAttachCommands, e.commands(PostAttach)), meta.containerEnv + e.containerEnv)
  }

  function Appended(cs: seq<Raw>, c: Raw): seq<Raw> {
    if IsEmpty(c) then cs else cs + [c]
  }

  lemma GatheredMore(es: seq<Entry>, e: Entry)
    ensures Gathered(es + [e]) == Absorbed(Gathered(es), e)
  {
    var more := es + [e];
    assert more[..|more| - 1] == es && more[|more| - 1] == e;
    assert AnyInit(more) <==> AnyInit(es) || e.init by {
      if AnyInit(es) { var i :| 0 <= i < |es| && es[i].init; assert more[i].init; }
    }
    assert AnyPrivileged(more) <==> AnyPrivileged(es) || e.privileged by {
      if AnyPrivileged(es) { var i :| 0 <= i < |es| && es[i].privileged; assert more[i].privileged; }
    }
    hide AnyInit, AnyPrivileged, MountsIn, IsEmpty;
  }

  /** One iteration of the reading loop. */
  method AbsorbEntry(meta0: ImageMeta, e: Entry) returns (meta: ImageMeta)
    ensures meta == Absorbed(meta0, e)
  {
    meta := meta0;
    if e.init {
      meta := meta.(init := true);
    }
    if e.privileged {
      meta := meta.(privileged := true);
    }
    meta := meta.(capAdd := meta.capAdd + e.capAdd, securityOpt := meta.securityOpt + e.securityOpt);
    if e.entrypoint != "" {
      meta := meta.(entrypoint := e.entrypoint);
    }
    meta := meta.(mounts := meta.mounts + MountsIn(e.mounts));
    meta := meta.(onCreateCommands := Appended(meta.onCreateCommands, e.commands(OnCreate)));
    meta := meta.(updateContentCommands := Appended(meta.updateContentCommands, e.commands(UpdateContent)));
    meta := meta.(postCreateCommands := Appended(meta.postCreateCommands, e.commands(PostCreate)));
    meta := meta.(postStartCommands := Appended(meta.postStartCommands, e.commands(PostStart)));
    meta := meta.(postAttachCommands := Appended(meta.postAttachCommands, e.commands(PostAttach)));
    if |e.containerEnv| > 0 {
      meta := meta.(containerEnv := meta.containerEnv + e.containerEnv);
    } else {
      assert e.containerEnv == map[];
      assert meta.containerEnv + e.containerEnv == meta.containerEnv;
    }
    hide MountsIn, Appended;
  }

  lemma NamedMore(es: seq<Entry>, i: nat)
    requires i < |es|
    ensures Named(es[..i + 1]) == if es[i].id == "" then Named(es[..i]) else Named(es[..i]) + [es[i]]
  {
    assert es[..i + 1][..i] == es[..i];
  }

  // ---------------------------------------------------------------------
  // What is read, in terms of the label alone

  /** `value` is the text of a string member, or empty if there is no such member. */
  ghost predicate ReadsString(o: LabelEntry, p: Property, value: string) {
    if p in o && o[p].String? then value == o[p].text else (p in o ==> o[p].Null?) && value == ""
  }

  ghost predicate ReadsFlag(o: LabelEntry, p: Property, value: bool) {
    if p in o && o[p].Bool? then value == o[p].flag else (p in o ==> o[p].Null?) && !value
  }

  /** `null` reads as the empty string inside a list or an object. */
  ghost predicate ReadsText(v: Json, value: string) {
    if v.String? then value == v.text else v.Null? && value == ""
  }

  ghost predicate ReadsList(o: LabelEntry, p: Property, value: seq<string>) {
    if p in o && o[p].Array? then
      |value| == |o[p].items| && forall k :: 0 <= k < |value| ==> ReadsText(o[p].items[k], value[k])
    else (p in o ==> o[p].Null?) && value == []
  }

  ghost predicate ReadsEnv(o: LabelEntry, p: Property, value: map<string, string>) {
    if p in o && o[p].Object? then
      value.Keys == o[p].fields.Keys && forall k :: k in value ==> ReadsText(o[p].fields[k], value[k])
    else (p in o ==> o[p].Null?) && value == map[]
  }

  /** `value` is the raw member, whatever it is. */
  ghost predicate ReadsRaw(o: LabelEntry, p: Property, value: Raw) {
    if p in o then value == Some(o[p]) else value == None
  }

  lemma StringMeans(o: LabelEntry, p: Property)
    ensures forall value :: GetString(o, p) == Some(value) <==> ReadsString(o, p, value)
  {
  }

  lemma FlagMeans(o: LabelEntry, p: Property)
    ensures forall value :: GetBool(o, p) == Some(value) <==> ReadsFlag(o, p, value)
  {
  }

  lemma ListMeans(o: LabelEntry, p: Property)
    ensures forall value :: GetStrings(o, p) == Some(value) <==> ReadsList(o, p, value)
  {
    forall value ensures GetStrings(o, p) == Some(value) <==> ReadsList(o, p, value) {
      if ReadsList(o, p, value) && p in o && o[p].Array? {
        assert forall k :: 0 <= k < |value| ==> ReadsText(o[p].items[k], value[k]);
        assert IsStringArray(o[p].items);
        assert GetStrings(o, p).value == value;
      }
    }
  }

  lemma EnvironmentMeans(o: LabelEntry, p: Property)
    requires p == ContainerEnv
    ensures forall value :: GetEnv(o, p) == Some(value) <==> ReadsEnv(o, p, value)
  {
    forall value ensures GetEnv(o, p) == Some(value) <==> ReadsEnv(o, p, value) {
      if ReadsEnv(o, p, value) && p in o && o[p].Object? {
        forall k | k in o[p].fields ensures o[p].fields[k].String? || o[p].fields[k].Null? {
          assert ReadsText(o[p].fields[k], value[k]);
        }
        assert GetEnv(o, p).value == value;
      }
    }
  }

  /** Which object of the label an entry is decoded from, member by member. */
  lemma DecodeMeans(o: LabelEntry, e: Entry)
    requires Decode(o) == Some(e)
    ensures ReadsString(o, Id, e.id) && ReadsString(o, Entrypoint, e.entrypoint)
    ensures ReadsFlag(o, Init, e.init) && ReadsFlag(o, Privileged, e.privileged)
    ensures ReadsList(o, CapAdd, e.capAdd) && ReadsList(o, SecurityOpt, e.securityOpt)
    ensures ReadsRaw(o, Mounts, e.mounts) && forall stage :: ReadsRaw(o, Command(stage), e.commands(stage))
    ensures ReadsEnv(o, ContainerEnv, e.containerEnv)
  {
    MembersMeanings(o);
    hide GetString, GetBool, GetStrings, GetEnv, ReadsString, ReadsFlag, ReadsList, ReadsEnv;
  }

  lemma MembersMeanings(o: LabelEntry)
    ensures forall p, value :: GetString(o, p) == Some(value) <==> ReadsString(o, p, value)
    ensures forall p, value :: GetBool(o, p) == Some(value) <==> ReadsFlag(o, p, value)
    ensures forall p, value :: GetStrings(o, p) == Some(value) <==> ReadsList(o, p, value)
    ensures forall value :: GetEnv(o, ContainerEnv) == Some(value) <==> ReadsEnv(o, ContainerEnv, value)
  {
    hide GetString, GetBool, GetStrings, GetEnv, ReadsString, ReadsFlag, ReadsList, ReadsEnv;
    forall p, value ensures GetString(o, p) == Some(value) <==> ReadsString(o, p, value) { StringMeans(o, p); }
    forall p, value ensures GetBool(o, p) == Some(value) <==> ReadsFlag(o, p, value) { FlagMeans(o, p); }
    forall p, value ensures GetStrings(o, p) == Some(value) <==> ReadsList(o, p, value) { ListMeans(o, p); }
    EnvironmentMeans(o, ContainerEnv);
  }

  ghost predicate ReadableString(o: LabelEntry, p: Property) {
    exists v :: ReadsString(o, p, v)
  }

  ghost predicate ReadableFlag(o: LabelEntry, p: Property) {
    exists v :: ReadsFlag(o, p, v)
  }

  ghost predicate ReadableList(o: LabelEntry, p: Property) {
    exists v :: ReadsList(o, p, v)
  }

  /** Which objects can be decoded: those whose members have the types that the reader wants. */
  lemma DecodableIff(o: LabelEntry)
    ensures Decode(o).Some?
       <==> && ReadableString(o, Id) && ReadableString(o, Entrypoint) && ReadableString(o, RemoteUser)
            && ReadableString(o, ContainerUser) && ReadableString(o, WorkspaceFolder)
            && ReadableFlag(o, Init) && ReadableFlag(o, Privileged)
            && ReadableList(o, CapAdd) && ReadableList(o, SecurityOpt) && exists v :: ReadsEnv(o, ContainerEnv, v)
  {
    MembersMeanings(o);
    hide GetString, GetBool, GetStrings, GetEnv, ReadsString, ReadsFlag, ReadsList, ReadsEnv;
    forall p ensures GetString(o, p).Some? <==> ReadableString(o, p) {
      if GetString(o, p).Some? { assert ReadsString(o, p, GetString(o, p).value); }
    }
    forall p ensures GetBool(o, p).Some? <==> ReadableFlag(o, p) {
      if GetBool(o, p).Some? { assert ReadsFlag(o, p, GetBool(o, p).value); }
    }
    forall p ensures GetStrings(o, p).Some? <==> ReadableList(o, p) {
      if GetStrings(o, p).Some? { assert ReadsList(o, p, GetStrings(o, p).value); }
    }
    if GetEnv(o, ContainerEnv).Some? { assert ReadsEnv(o, ContainerEnv, GetEnv(o, ContainerEnv).value); }
    hide ReadableString, ReadableFlag, ReadableList;
  }

  /** The entries of a label are its objects, decoded; a label with an object that cannot be decoded has none. */
  lemma {:induction false} EntriesMean(os: seq<LabelEntry>)
    ensures if forall i :: 0 <= i < |os| ==> Decode(os[i]).Some? then
              && |EntriesOf(Entries(os))| == |os|
              && forall i :: 0 <= i < |os| ==> Decode(os[i]) == Some(EntriesOf(Entries(os))[i])
            else EntriesOf(Entries(os)) == []
  {
    hide Decode;
    DecodeAllMeans(os);
  }

  lemma {:induction false} DecodeAllMeans(os: seq<LabelEntry>)
    ensures DecodeAll(os).Some? <==> forall i :: 0 <= i < |os| ==> Decode(os[i]).Some?
    ensures DecodeAll(os).Some? ==>
              |DecodeAll(os).value| == |os| && forall i :: 0 <= i < |os| ==> Decode(os[i]) == Some(DecodeAll(os).value[i])
  {
    hide Decode;
    if os != [] {
      DecodeAllMeans(os[..|os| - 1]);
      assert forall i :: 0 <= i < |os| - 1 ==> os[..|os| - 1][i] == os[i];
    }
  }

  /** A label that is one object has one entry; no other label has any. */
  lemma OtherLabels(metadata: Label)
    requires !metadata.Entries?
    ensures if metadata.Single? && Decode(metadata.entry).Some? then
              |EntriesOf(metadata)| == 1 && Decode(metadata.entry) == Some(EntriesOf(metadata)[0])
            else EntriesOf(metadata) == []
  {
    hide Decode;
  }

  /** `at` gives entry and position of each mount: the items of the arrays of the entries with an ID, in order. */
  ghost predicate MountsAt(mounts: seq<Raw>, es: seq<Entry>, at: seq<(nat, nat)>) {
    && |at| == |mounts|
    && (forall m, n :: 0 <= m < n < |at| ==> at[m].0 < at[n].0 || (at[m].0 == at[n].0 && at[m].1 < at[n].1))
    && (forall n :: 0 <= n < |at| ==> HasMount(es, at[n].0, at[n].1) && mounts[n] == Some(es[at[n].0].mounts.value.items[at[n].1]))
    && (forall i: nat, j: nat :: HasMount(es, i, j) ==> (i, j) in at)
  }

  predicate HasMount(es: seq<Entry>, i: nat, j: nat) {
    i < |es| && es[i].id != "" && es[i].mounts.Some? && es[i].mounts.value.Array? && j < |es[i].mounts.value.items|
  }

  /** `at` gives the entry of each command: the entries with an ID that have a command for the stage, in order. */
  ghost predicate CommandsAt(commands: seq<Raw>, es: seq<Entry>, stage: Stage, at: seq<nat>) {
    && |at| == |commands| && Increasing(at)
    && (forall n :: 0 <= n < |at| ==> HasCommand(es, stage, at[n]) && commands[n] == es[at[n]].commands(stage))
    && (forall i: nat :: HasCommand(es, stage, i) ==> i in at)
  }

  predicate HasCommand(es: seq<Entry>, stage: Stage, i: nat) {
    i < |es| && es[i].id != "" && es[i].commands(stage).Some? && !es[i].commands(stage).value.Null?
  }

  /** The elements of the parts, none twice, in the order in which they first appear. */
  ghost predicate FirstAppearances(list: seq<string>, parts: seq<seq<string>>) {
    && Distinct(list)
    && (forall x :: x in list <==> Occurs(parts, x))
    && (forall m, n :: 0 <= m < n < |list| ==> ComesFirst(parts, list[m], list[n]))
  }

  ghost predicate Occurs(parts: seq<seq<string>>, x: string) {
    exists i, j :: 0 <= i < |parts| && 0 <= j < |parts[i]| && parts[i][j] == x
  }

  /** `x` appears in the parts before any `y`. */
  ghost predicate ComesFirst(parts: seq<seq<string>>, x: string, y: string) {
    exists i, j :: StandsFirst(parts, i, j, x, y)
  }

  /** `x` stands in part `i` at position `j`, and `y` nowhere up to there. */
  ghost predicate StandsFirst(parts: seq<seq<string>>, i: int, j: int, x: string, y: string) {
    && 0 <= i < |parts| && 0 <= j < |parts[i]| && parts[i][j] == x
    && forall k, l :: 0 <= k < |parts| && 0 <= l < |parts[k]| && (k < i || (k == i && l <= j)) ==> parts[k][l] != y
  }

  /** The last entry counts if it has an ID. */
  lemma NamedStep(es: seq<Entry>)
    requires es != []
    ensures var n := |es| - 1;
            if es[n].id == "" then Named(es) == Named(es[..n])
            else && |Named(es)| == |Named(es[..n])| + 1 && Named(es)[|Named(es)| - 1] == es[n]
                 && Named(es)[..|Named(es)| - 1] == Named(es[..n])
  {
    NamedMore(es, |es| - 1);
    assert es[..|es|] == es;
  }

  lemma NamedNothing()
    ensures Named([]) == []
  {
  }

  /** A flag is set when an entry with an ID sets it. */
  lemma {:induction false} FlagsMean(es: seq<Entry>)
    ensures AnyInit(Named(es)) <==> exists i :: 0 <= i < |es| && es[i].id != "" && es[i].init
    ensures AnyPrivileged(Named(es)) <==> exists i :: 0 <= i < |es| && es[i].id != "" && es[i].privileged
  {
    NamedIff(es);
    hide Named;
    if i :| 0 <= i < |Named(es)| && Named(es)[i].init { assert Named(es)[i] in es; }
    if i :| 0 <= i < |es| && es[i].id != "" && es[i].init { assert es[i] in Named(es); }
    if i :| 0 <= i < |Named(es)| && Named(es)[i].privileged { assert Named(es)[i] in es; }
    if i :| 0 <= i < |es| && es[i].id != "" && es[i].privileged { assert es[i] in Named(es); }
  }

  lemma {:induction false} NamedIff(es: seq<Entry>)
    ensures forall e :: e in Named(es) <==> e in es && e.id != ""
  {
    if es != [] {
      var n := |es| - 1;
      NamedIff(es[..n]);
      assert es == es[..n] + [es[n]];
    }
  }

  lemma EntrypointStep(es: seq<Entry>)
    requires es != []
    ensures var e, before := es[|es| - 1], LastEntrypoint(Named(es[..|es| - 1]));
            LastEntrypoint(Named(es)) == if e.id != "" && e.entrypoint != "" then e.entrypoint else before
  {
    NamedStep(es);
    hide Named;
  }

  /** The last entrypoint of an entry with an ID wins. */
  lemma {:induction false} LastWithEntrypoint(es: seq<Entry>) returns (i: int)
    ensures -1 <= i < |es| && forall j :: i < j < |es| && es[j].id != "" ==> es[j].entrypoint == ""
    ensures i == -1 ==> LastEntrypoint(Named(es)) == ""
    ensures i >= 0 ==> es[i].id != "" && es[i].entrypoint != "" && LastEntrypoint(Named(es)) == es[i].entrypoint
  {
    if es == [] {
      i := -1;
    } else {
      var n := |es| - 1;
      EntrypointStep(es);
      hide LastEntrypoint, Named;
      if es[n].id != "" && es[n].entrypoint != "" {
        i := n;
      } else {
        i := LastWithEntrypoint(es[..n]);
        forall j | i < j < |es| && es[j].id != "" ensures es[j].entrypoint == "" { if j < n { assert es[..n][j] == es[j]; } }
      }
    }
  }

  lemma EntrypointMeans(es: seq<Entry>)
    ensures (forall i :: 0 <= i < |es| && es[i].id != "" ==> es[i].entrypoint == "") ==> LastEntrypoint(Named(es)) == ""
    ensures forall i :: 0 <= i < |es| && es[i].id != "" && es[i].entrypoint != ""
                        && (forall k :: i < k < |es| && es[k].id != "" ==> es[k].entrypoint == "") ==>
              LastEntrypoint(Named(es)) == es[i].entrypoint
  {
    var last := LastWithEntrypoint(es);
    hide *;
    forall i | 0 <= i < |es| && es[i].id != "" && es[i].entrypoint != ""
               && (forall k :: i < k < |es| && es[k].id != "" ==> es[k].entrypoint == "")
      ensures i == last
    {
    }
  }

  lemma EnvStep(es: seq<Entry>, k: string)
    requires es != []
    ensures var e, before, after := es[|es| - 1], EnvOf(Named(es[..|es| - 1])), EnvOf(Named(es));
            if e.id != "" && k in e.containerEnv then k in after && after[k] == e.containerEnv[k]
            else (k in after <==> k in before) && (k in after ==> after[k] == before[k])
  {
    NamedStep(es);
    hide Named;
  }

  ghost predicate Sets(e: Entry, k: string) {
    e.id != "" && k in e.containerEnv
  }

  /** A variable has the value of the last entry with an ID that sets it. */
  lemma {:induction false} LastSetter(es: seq<Entry>, k: string) returns (i: int)
    ensures -1 <= i < |es| && forall j :: i < j < |es| ==> !Sets(es[j], k)
    ensures i == -1 ==> k !in EnvOf(Named(es))
    ensures i >= 0 ==> Sets(es[i], k) && k in EnvOf(Named(es)) && EnvOf(Named(es))[k] == es[i].containerEnv[k]
  {
    if es == [] {
      i := -1;
    } else {
      var n := |es| - 1;
      EnvStep(es, k);
      hide EnvOf, Named;
      if Sets(es[n], k) {
        i := n;
      } else {
        i := LastSetter(es[..n], k);
        forall j | i < j < |es| ensures !Sets(es[j], k) { if j < n { assert es[..n][j] == es[j]; } }
      }
    }
  }

  lemma VariableMeans(es: seq<Entry>, k: string)
    ensures k in EnvOf(Named(es)) <==> exists i :: 0 <= i < |es| && es[i].id != "" && k in es[i].containerEnv
    ensures forall i :: 0 <= i < |es| && es[i].id != "" && k in es[i].containerEnv
                        && (forall j :: i < j < |es| && es[j].id != "" ==> k !in es[j].containerEnv) ==>
              k in EnvOf(Named(es)) && EnvOf(Named(es))[k] == es[i].containerEnv[k]
  {
    var last := LastSetter(es, k);
    assert last >= 0 ==> es[last].id != "" && k in es[last].containerEnv;
    hide EnvOf, Named;
    forall i | 0 <= i < |es| && es[i].id != "" && k in es[i].containerEnv
               && (forall j :: i < j < |es| && es[j].id != "" ==> k !in es[j].containerEnv)
      ensures i == last
    {
      assert Sets(es[i], k);
    }
  }

  lemma EnvMeans(es: seq<Entry>)
    ensures forall k :: k in EnvOf(Named(es)) <==> exists i :: 0 <= i < |es| && es[i].id != "" && k in es[i].containerEnv
    ensures forall i, k :: 0 <= i < |es| && es[i].id != "" && k in es[i].containerEnv
                           && (forall j :: i < j < |es| && es[j].id != "" ==> k !in es[j].containerEnv) ==>
              k in EnvOf(Named(es)) && EnvOf(Named(es))[k] == es[i].containerEnv[k]
  {
    hide EnvOf, Named;
    forall k
      ensures k in EnvOf(Named(es)) <==> exists i :: 0 <= i < |es| && es[i].id != "" && k in es[i].containerEnv
      ensures forall i :: 0 <= i < |es| && es[i].id != "" && k in es[i].containerEnv
                          && (forall j :: i < j < |es| && es[j].id != "" ==> k !in es[j].containerEnv) ==>
                k in EnvOf(Named(es)) && EnvOf(Named(es))[k] == es[i].containerEnv[k]
    {
      VariableMeans(es, k);
    }
  }

  lemma CommandsStep(es: seq<Entry>, stage: Stage)
    requires es != []
    ensures var e, before := es[|es| - 1], Commands(Named(es[..|es| - 1]), stage);
            Commands(Named(es), stage) == if HasCommand(es, stage, |es| - 1) then before + [e.commands(stage)] else before
  {
    NamedStep(es);
    hide Named;
  }

  lemma {:induction false} CommandsMean(es: seq<Entry>, stage: Stage) returns (at: seq<nat>)
    ensures CommandsAt(Commands(Named(es), stage), es, stage, at)
  {
    hide *;
    if es == [] {
      at := [];
      NoCommands(stage);
    } else {
      var n := |es| - 1;
      var before := CommandsMean(es[..n], stage);
      CommandsStep(es, stage);
      at := if HasCommand(es, stage, n) then before + [n] else before;
      CommandsAtMore(Commands(Named(es[..n]), stage), es, stage, before);
    }
  }

  lemma NoCommands(stage: Stage)
    ensures CommandsAt(Commands(Named([]), stage), [], stage, [])
  {
  }

  lemma CommandsAtMore(commands: seq<Raw>, es: seq<Entry>, stage: Stage, at: seq<nat>)
    requires es != [] && CommandsAt(commands, es[..|es| - 1], stage, at)
    ensures var n := |es| - 1;
            if HasCommand(es, stage, n) then CommandsAt(commands + [es[n].commands(stage)], es, stage, at + [n])
            else CommandsAt(commands, es, stage, at)
  {
    var n := |es| - 1;
    forall i: nat | HasCommand(es, stage, i) ensures if i < n then i in at else i in at + [n] {
      if i < n { assert HasCommand(es[..n], stage, i); } else { assert (at + [n])[|at|] == n; }
    }
    forall i | 0 <= i < |at| ensures HasCommand(es, stage, at[i]) { assert HasCommand(es[..n], stage, at[i]); }
  }

  lemma MountsStep(es: seq<Entry>)
    requires es != []
    ensures var e, before := es[|es| - 1], AllMounts(Named(es[..|es| - 1]));
            AllMounts(Named(es)) == before + MountsOf(e)
  {
    NamedStep(es);
    hide Named, MountsIn;
  }

  /** The mounts of one entry, if it counts. */
  function MountsOf(e: Entry): seq<Raw> {
    if e.id == "" then [] else MountsIn(e.mounts)
  }

  lemma {:induction false} MountsFlatten(es: seq<Entry>, parts: seq<seq<Raw>>) returns (at: seq<(nat, nat)>)
    requires |parts| == |es| && forall i :: 0 <= i < |es| ==> parts[i] == MountsOf(es[i])
    ensures Flattens(parts, AllMounts(Named(es)), at)
  {
    hide *;
    if es == [] {
      at := [];
      NoMounts();
      FlattensNothing<Raw>();
    } else {
      var n := |es| - 1;
      at := MountsFlatten(es[..n], parts[..n]);
      MountsStep(es);
      at := FlattensMore(parts[..n], AllMounts(Named(es[..n])), at, parts[n]);
      assert parts[..n] + [parts[n]] == parts;
    }
  }

  lemma NoMounts()
    ensures AllMounts(Named([])) == []
  {
  }

  lemma MountsMean(es: seq<Entry>) returns (at: seq<(nat, nat)>)
    ensures MountsAt(AllMounts(Named(es)), es, at)
  {
    var parts := seq(|es|, i requires 0 <= i < |es| => MountsOf(es[i]));
    at := MountsFlatten(es, parts);
    hide AllMounts, Named;
    FlatMounts(es, parts, AllMounts(Named(es)), at);
  }

  lemma MountsOfMeans(es: seq<Entry>, i: nat, j: nat)
    requires i < |es|
    ensures HasMount(es, i, j) <==> j < |MountsOf(es[i])|
    ensures HasMount(es, i, j) ==> MountsOf(es[i])[j] == Some(es[i].mounts.value.items[j])
  {
  }

  lemma FlatMounts(es: seq<Entry>, parts: seq<seq<Raw>>, mounts: seq<Raw>, at: seq<(nat, nat)>)
    requires |parts| == |es| && forall i :: 0 <= i < |es| ==> parts[i] == MountsOf(es[i])
    requires Flattens(parts, mounts, at)
    ensures MountsAt(mounts, es, at)
  {
    hide MountsOf;
    forall n | 0 <= n < |at|
      ensures HasMount(es, at[n].0, at[n].1) && mounts[n] == Some(es[at[n].0].mounts.value.items[at[n].1])
    {
      MountsOfMeans(es, at[n].0, at[n].1);
    }
    forall i: nat, j: nat | HasMount(es, i, j) ensures (i, j) in at { MountsOfMeans(es, i, j); }
  }

  lemma ListsStep(es: seq<Entry>)
    requires es != []
    ensures var e, front := es[|es| - 1], Named(es[..|es| - 1]);
            && Caps(Named(es)) == Caps(front) + (if e.id != "" then e.capAdd else [])
            && SecurityOpts(Named(es)) == SecurityOpts(front) + if e.id != "" then e.securityOpt else []
  {
    NamedStep(es);
    hide Named;
  }

  /** The lists of the entries with an ID. */
  lemma {:induction false} CapsFlatten(es: seq<Entry>, parts: seq<seq<string>>) returns (at: seq<(nat, nat)>)
    requires |parts| == |es| && forall i :: 0 <= i < |es| ==> parts[i] == if es[i].id == "" then [] else es[i].capAdd
    ensures Flattens(parts, Caps(Named(es)), at)
  {
    hide Flattens, Named;
    if es == [] {
      at := [];
      assert parts == [] && Named(es) == [] by { NamedNothing(); }
      FlattensNothing<string>();
    } else {
      var n := |es| - 1;
      at := CapsFlatten(es[..n], parts[..n]);
      ListsStep(es);
      hide *;
      at := FlattensMore(parts[..n], Caps(Named(es[..n])), at, parts[n]);
      assert parts[..n] + [parts[n]] == parts;
    }
  }

  lemma {:induction false} OptsFlatten(es: seq<Entry>, parts: seq<seq<string>>) returns (at: seq<(nat, nat)>)
    requires |parts| == |es| && forall i :: 0 <= i < |es| ==> parts[i] == if es[i].id == "" then [] else es[i].securityOpt
    ensures Flattens(parts, SecurityOpts(Named(es)), at)
  {
    hide Flattens, Named;
    if es == [] {
      at := [];
      assert parts == [] && Named(es) == [] by { NamedNothing(); }
      FlattensNothing<string>();
    } else {
      var n := |es| - 1;
      at := OptsFlatten(es[..n], parts[..n]);
      ListsStep(es);
      hide *;
      at := FlattensMore(parts[..n], SecurityOpts(Named(es[..n])), at, parts[n]);
      assert parts[..n] + [parts[n]] == parts;
    }
  }

  lemma FirstOccurrencesAppear(parts: seq<seq<string>>, list: seq<string>, at: seq<(nat, nat)>)
    requires Flattens(parts, list, at)
    ensures FirstAppearances(FirstOccurrences(list), parts)
  {
    var firsts := FirstOccurrences(list);
    FirstOccurrencesFacts(list);
    hide FirstOccurrences, Flattens, ComesFirst, AppearsBefore;
    forall x ensures x in firsts <==> Occurs(parts, x) {
      assert x in SetOf(firsts) <==> x in SetOf(list);
      if x in list { ElementFrom(parts, list, at, x); }
      if i, j :| 0 <= i < |parts| && 0 <= j < |parts[i]| && parts[i][j] == x { ElementListed(parts, list, at, i, j); }
    }
    forall m, n | 0 <= m < n < |firsts| ensures ComesFirst(parts, firsts[m], firsts[n]) {
      AppearsFirst(parts, list, at, firsts[m], firsts[n]);
    }
  }

  lemma ElementFrom(parts: seq<seq<string>>, list: seq<string>, at: seq<(nat, nat)>, x: string)
    requires Flattens(parts, list, at) && x in list
    ensures Occurs(parts, x)
  {
    var n :| 0 <= n < |list| && list[n] == x;
    assert parts[at[n].0][at[n].1] == x;
  }

  lemma ElementListed(parts: seq<seq<string>>, list: seq<string>, at: seq<(nat, nat)>, i: nat, j: nat)
    requires Flattens(parts, list, at) && i < |parts| && j < |parts[i]|
    ensures exists n :: 0 <= n < |list| && at[n] == (i, j) && list[n] == parts[i][j]
  {
    assert (i, j) in at;
    var n :| 0 <= n < |at| && at[n] == (i, j);
    assert list[n] == parts[at[n].0][at[n].1];
  }

  lemma AppearsFirst(parts: seq<seq<string>>, list: seq<string>, at: seq<(nat, nat)>, x: string, y: string)
    requires Flattens(parts, list, at) && AppearsBefore(list, x, y) && x != y
    ensures ComesFirst(parts, x, y)
  {
    var n :| 0 <= n < |list| && list[n] == x && y !in list[..n];
    var i, j := at[n].0, at[n].1;
    forall k, l | 0 <= k < |parts| && 0 <= l < |parts[k]| && (k < i || (k == i && l <= j)) ensures parts[k][l] != y {
      ElementListed(parts, list, at, k, l);
      var p :| 0 <= p < |list| && at[p] == (k, l) && list[p] == parts[k][l];
      if p < n { assert list[..n][p] == list[p]; }
    }
    assert StandsFirst(parts, i, j, x, y);
  }

  /** Which flags the entries `es` set, and what they add to the lists. */
  ghost predicate FlagsRead(meta: ImageMeta, es: seq<Entry>) {
    && (meta.init <==> exists i :: 0 <= i < |es| && es[i].id != "" && es[i].init)
    && (meta.privileged <==> exists i :: 0 <= i < |es| && es[i].id != "" && es[i].privileged)
    && FirstAppearances(meta.capAdd, seq(|es|, i requires 0 <= i < |es| => if es[i].id == "" then [] else es[i].capAdd))
    && FirstAppearances(meta.securityOpt, seq(|es|, i requires 0 <= i < |es| => if es[i].id == "" then [] else es[i].securityOpt))
  }

  /** The last entrypoint and the last value of each variable. */
  ghost predicate ValuesRead(meta: ImageMeta, es: seq<Entry>) {
    && ((forall i :: 0 <= i < |es| && es[i].id != "" ==> es[i].entrypoint == "") ==> meta.entrypoint == "")
    && (forall i :: 0 <= i < |es| && es[i].id != "" && es[i].entrypoint != ""
                    && (forall k :: i < k < |es| && es[k].id != "" ==> es[k].entrypoint == "") ==>
          meta.entrypoint == es[i].entrypoint)
    && (forall k :: k in meta.containerEnv <==> exists i :: 0 <= i < |es| && es[i].id != "" && k in es[i].containerEnv)
    && (forall i, k :: 0 <= i < |es| && es[i].id != "" && k in es[i].containerEnv
                       && (forall j :: i < j < |es| && es[j].id != "" ==> k !in es[j].containerEnv) ==>
          k in meta.containerEnv && meta.containerEnv[k] == es[i].containerEnv[k])
  }

  /** The mounts, and the commands of each stage. */
  ghost predicate ListsRead(meta: ImageMeta, es: seq<Entry>) {
    && (exists at :: MountsAt(meta.mounts, es, at))
    && (exists at :: CommandsAt(meta.onCreateCommands, es, OnCreate, at))
    && (exists at :: CommandsAt(meta.updateContentCommands, es, UpdateContent, at))
    && (exists at :: CommandsAt(meta.postCreateCommands, es, PostCreate, at))
    && (exists at :: CommandsAt(meta.postStartCommands, es, PostStart, at))
    && (exists at :: CommandsAt(meta.postAttachCommands, es, PostAttach, at))
  }

  /** What a label of these entries, the last one last, amounts to. */
  ghost predicate ReadFrom(meta: ImageMeta, es: seq<Entry>) {
    FlagsRead(meta, es) && ValuesRead(meta, es) && ListsRead(meta, es)
  }

  lemma CombinedMeans(es: seq<Entry>)
    ensures ReadFrom(Combined(Named(es)), es)
  {
    hide *;
    CombinedFlags(es);
    CombinedValues(es);
    CombinedLists(es);
    assert ReadFrom(Combined(Named(es)), es) by { AllRead(Combined(Named(es)), es); }
  }

  lemma AllRead(meta: ImageMeta, es: seq<Entry>)
    requires FlagsRead(meta, es) && ValuesRead(meta, es) && ListsRead(meta, es)
    ensures ReadFrom(meta, es)
  {
    hide FlagsRead, ValuesRead, ListsRead;
  }

  lemma CombinedFlags(es: seq<Entry>)
    ensures FlagsRead(Combined(Named(es)), es)
  {
    var caps := seq(|es|, i requires 0 <= i < |es| => if es[i].id == "" then [] else es[i].capAdd);
    var opts := seq(|es|, i requires 0 <= i < |es| => if es[i].id == "" then [] else es[i].securityOpt);
    var at := CapsFlatten(es, caps);
    var ot := OptsFlatten(es, opts);
    FirstOccurrencesAppear(caps, Caps(Named(es)), at);
    FirstOccurrencesAppear(opts, SecurityOpts(Named(es)), ot);
    FlagsMean(es);
    CombinedParts(Named(es));
    hide Named, Combined, FirstAppearances, FirstOccurrences, Flattens, AnyInit, AnyPrivileged, Caps, SecurityOpts;
  }

  lemma CombinedParts(es: seq<Entry>)
    ensures Combined(es).init == AnyInit(es) && Combined(es).privileged == AnyPrivileged(es)
    ensures Combined(es).capAdd == FirstOccurrences(Caps(es)) && Combined(es).securityOpt == FirstOccurrences(SecurityOpts(es))
    ensures Combined(es).entrypoint == LastEntrypoint(es) && Combined(es).containerEnv == EnvOf(es)
    ensures Combined(es).mounts == AllMounts(es)
    ensures Combined(es).onCreateCommands == Commands(es, OnCreate) && Combined(es).updateContentCommands == Commands(es, UpdateContent)
    ensures Combined(es).postCreateCommands == Commands(es, PostCreate) && Combined(es).postStartCommands == Commands(es, PostStart)
    ensures Combined(es).postAttachCommands == Commands(es, PostAttach)
  {
    hide FirstOccurrences, AnyInit, AnyPrivileged, LastEntrypoint, EnvOf, Caps, SecurityOpts, AllMounts, Commands;
  }

  lemma CombinedValues(es: seq<Entry>)
    ensures ValuesRead(Combined(Named(es)), es)
  {
    EntrypointMeans(es);
    EnvMeans(es);
    CombinedParts(Named(es));
    hide Named, Combined, LastEntrypoint, EnvOf;
  }

  lemma CombinedLists(es: seq<Entry>)
    ensures ListsRead(Combined(Named(es)), es)
  {
    var mt := MountsMean(es);
    var c1 := CommandsMean(es, OnCreate);
    var c2 := CommandsMean(es, UpdateContent);
    var c3 := CommandsMean(es, PostCreate);
    var c4 := CommandsMean(es, PostStart);
    var c5 := CommandsMean(es, PostAttach);
    CombinedParts(Named(es));
    hide Named, Combined, MountsAt, CommandsAt, AllMounts, Commands;
  }

  /** `extractImageMetadata` on the label of an image that could be inspected. */
  method ExtractImageMetadata(metadata: Label) returns (meta: ImageMeta)
    ensures meta == Combined(Named(EntriesOf(metadata)))
    ensures ReadFrom(meta, EntriesOf(metadata))
  {
    var entries := EntriesOf(metadata);
    meta := ImageMeta(false, false, [], [], "", [], [], [], [], [], [], map[]);
    hide EntriesOf;
    assert meta == Gathered(Named(entries[..0]));
    for i := 0 to |entries|
      invariant meta == Gathered(Named(entries[..i]))
    {
      var e := entries[i];
      hide Gathered, Absorbed, Named;
      NamedMore(entries, i);
      if e.id == "" {
        continue;
      }
      GatheredMore(Named(entries[..i]), e);
      meta := AbsorbEntry(meta, e);
    }
    assert entries[..|entries|] == entries;
    var caps := UniqueStrings(meta.capAdd);
    var opts := UniqueStrings(meta.securityOpt);
    meta := meta.(capAdd := caps, securityOpt := opts);
    CombinedMeans(entries);
    hide ReadFrom, Named;
  }

  // ---------------------------------------------------------------------
  // Writing

  /** What the reader is to find for a feature. */
  function EntryOf(m: FeatureMeta): Entry {
    Entry(m.id, m.init, m.privileged, m.capAdd, m.securityOpt, m.entrypoint, m.mounts, FeatureCommands(m), m.containerEnv)
  }

  function FeatureCommand(m: FeatureMeta, stage: Stage): Raw {
    match stage
    case OnCreate => m.onCreateCommand
    case UpdateContent => m.updateContentCommand
    case PostCreate => m.postCreateCommand
    case PostStart => m.postStartCommand
    case PostAttach => m.postAttachCommand
  }

  function FeatureCommands(m: FeatureMeta): Stage -> Raw {
    stage => FeatureCommand(m, stage)
  }

  /** Two entries that the reader cannot tell apart: empty commands count as absent. */
  ghost predicate SameEntry(a: Entry, b: Entry) {
    && a.(commands := b.commands) == b
    && forall stage :: if IsEmpty(b.commands(stage)) then IsEmpty(a.commands(stage)) else a.commands(stage) == b.commands(stage)
  }

  /** The object written for one feature reads back as the feature. */
  ghost predicate ReadsAs(o: LabelEntry, m: FeatureMeta) {
    Decode(o).Some? && SameEntry(Decode(o).value, EntryOf(m))
  }

  function JsonEnv(env: map<string, string>): Json {
    Object(map k | k in env :: String(env[k]))
  }

  /** The value written under a property, if any: zero values are left out. */
  function Member(f: ResolvedFeature, p: Property): Raw {
    var m := f.meta;
    match p
    case Id => Some(String(m.id))
    case Version => Some(String(m.version))
    case Name => Some(String(m.name))
    case Options => if |f.ref.options| > 0 then Some(Object(f.ref.options)) else None
    case ContainerEnv => if |m.containerEnv| > 0 then Some(JsonEnv(m.containerEnv)) else None
    case Init => if m.init then Some(Bool(true)) else None
    case Privileged => if m.privileged then Some(Bool(true)) else None
    case CapAdd => if |m.capAdd| > 0 then Some(JsonStrings(m.capAdd)) else None
    case SecurityOpt => if |m.securityOpt| > 0 then Some(JsonStrings(m.securityOpt)) else None
    case Entrypoint => if m.entrypoint != "" then Some(String(m.entrypoint)) else None
    case Mounts => m.mounts
    case Command(stage) => if IsEmpty(FeatureCommand(m, stage)) then None else FeatureCommand(m, stage)
    case Customizations => m.customizations
    case _ => None
  }

  /** The object holds exactly the members written for the feature. */
  ghost predicate HasMembers(o: LabelEntry, f: ResolvedFeature) {
    forall p :: GetRaw(o, p) == Member(f, p)
  }

  lemma StringsReadBack(o: LabelEntry, p: Property, ss: seq<string>)
    requires GetRaw(o, p) == if |ss| > 0 then Some(JsonStrings(ss)) else None
    ensures GetStrings(o, p) == Some(ss)
  {
    if |ss| > 0 { assert AsArray(Some(JsonStrings(ss))).value == ss; }
  }

  lemma EnvReadsBack(o: LabelEntry, env: map<string, string>)
    requires GetRaw(o, ContainerEnv) == if |env| > 0 then Some(JsonEnv(env)) else None
    ensures GetEnv(o, ContainerEnv) == Some(env)
  {
    if |env| > 0 { assert GetEnv(o, ContainerEnv).value == env; }
  }

  lemma ScalarsReadBack(o: LabelEntry, f: ResolvedFeature)
    requires HasMembers(o, f)
    ensures GetString(o, Id) == Some(f.meta.id) && GetString(o, Entrypoint) == Some(f.meta.entrypoint)
    ensures GetBool(o, Init) == Some(f.meta.init) && GetBool(o, Privileged) == Some(f.meta.privileged)
    ensures GetString(o, RemoteUser).Some? && GetString(o, ContainerUser).Some? && GetString(o, WorkspaceFolder).Some?
  {
    hide JsonStrings, JsonEnv, FeatureCommand, IsEmpty;
    assert GetRaw(o, Id) == Member(f, Id) && GetRaw(o, Entrypoint) == Member(f, Entrypoint);
    assert GetRaw(o, Init) == Member(f, Init) && GetRaw(o, Privileged) == Member(f, Privileged);
    assert GetRaw(o, RemoteUser) == Member(f, RemoteUser) && GetRaw(o, ContainerUser) == Member(f, ContainerUser);
    assert GetRaw(o, WorkspaceFolder) == Member(f, WorkspaceFolder);
  }

  lemma CommandsReadBack(o: LabelEntry, f: ResolvedFeature, stage: Stage)
    requires HasMembers(o, f)
    ensures var c := FeatureCommands(f.meta)(stage);
            if IsEmpty(c) then IsEmpty(CommandsIn(o)(stage)) else CommandsIn(o)(stage) == c
  {
    hide JsonStrings, JsonEnv, FeatureCommand;
    assert GetRaw(o, Command(stage)) == Member(f, Command(stage));
  }

  lemma ListsReadBack(o: LabelEntry, f: ResolvedFeature)
    requires HasMembers(o, f)
    ensures GetStrings(o, CapAdd) == Some(f.meta.capAdd) && GetStrings(o, SecurityOpt) == Some(f.meta.securityOpt)
    ensures GetEnv(o, ContainerEnv) == Some(f.meta.containerEnv) && GetRaw(o, Mounts) == f.meta.mounts
  {
    hide JsonStrings, JsonEnv, FeatureCommand, IsEmpty, GetStrings, GetEnv, GetRaw;
    assert GetRaw(o, CapAdd) == Member(f, CapAdd) && GetRaw(o, SecurityOpt) == Member(f, SecurityOpt);
    assert GetRaw(o, ContainerEnv) == Member(f, ContainerEnv) && GetRaw(o, Mounts) == Member(f, Mounts);
    StringsReadBack(o, CapAdd, f.meta.capAdd);
    StringsReadBack(o, SecurityOpt, f.meta.securityOpt);
    EnvReadsBack(o, f.meta.containerEnv);
  }

  lemma MembersReadAs(o: LabelEntry, f: ResolvedFeature)
    requires HasMembers(o, f)
    ensures ReadsAs(o, f.meta)
  {
    ScalarsReadBack(o, f);
    ListsReadBack(o, f);
    forall stage { CommandsReadBack(o, f, stage); }
    hide GetString, GetBool, GetStrings, GetEnv, GetRaw, CommandsIn, FeatureCommands, HasMembers, IsEmpty;
  }

  /** `buildFeatureMetadata`. */
  method BuildFeatureMetadata(features: seq<ResolvedFeature>) returns (result: seq<LabelEntry>)
    ensures |result| == |features|
    ensures forall i :: 0 <= i < |features| ==> HasMembers(result[i], features[i]) && ReadsAs(result[i], features[i].meta)
  {
    hide *;
    result := [];
    for i := 0 to |features|
      invariant |result| == i
      invariant forall k :: 0 <= k < i ==> HasMembers(result[k], features[k]) && ReadsAs(result[k], features[k].meta)
    {
      var o := WriteFeature(features[i]);
      result := result + [o];
    }
  }

  /** One iteration of the writing loop. */
  method WriteFeature(f: ResolvedFeature) returns (m: LabelEntry)
    ensures HasMembers(m, f) && ReadsAs(m, f.meta)
  {
    m := WriteProperties(f);
    m := WriteCommands(f, m);
    if f.meta.customizations.Some? {
      m := m[Customizations := f.meta.customizations.value];
    }
    hide JsonStrings, JsonEnv, FeatureCommand, IsEmpty;
    assert HasMembers(m, f);
    hide HasMembers, ReadsAs;
    MembersReadAs(m, f);
  }

  predicate IsBasic(p: Property) {
    p.Id? || p.Version? || p.Name? || p.Options? || p.ContainerEnv? || p.Init? || p.Privileged?
  }

  /** The members up to the privileged flag. */
  method WriteBasics(f: ResolvedFeature) returns (m: LabelEntry)
    ensures forall p: Property :: GetRaw(m, p) == if IsBasic(p) then Member(f, p) else None
  {
    hide JsonStrings, JsonEnv, FeatureCommand, IsEmpty;
    m := map[Id := String(f.meta.id), Version := String(f.meta.version), Name := String(f.meta.name)];
    if |f.ref.options| > 0 {
      m := m[Options := Object(f.ref.options)];
    }
    if |f.meta.containerEnv| > 0 {
      m := m[ContainerEnv := JsonEnv(f.meta.containerEnv)];
    }
    if f.meta.init {
      m := m[Init := Bool(true)];
    }
    if f.meta.privileged {
      m := m[Privileged := Bool(true)];
    }
  }

  /** The members up to the mounts. */
  method WriteProperties(f: ResolvedFeature) returns (m: LabelEntry)
    ensures forall p: Property :: GetRaw(m, p) == if p.Command? || p.Customizations? then None else Member(f, p)
  {
    hide JsonStrings, JsonEnv, FeatureCommand, IsEmpty;
    m := WriteBasics(f);
    ghost var basics := m;
    if |f.meta.capAdd| > 0 {
      m := m[CapAdd := JsonStrings(f.meta.capAdd)];
    }
    if |f.meta.securityOpt| > 0 {
      m := m[SecurityOpt := JsonStrings(f.meta.securityOpt)];
    }
    if f.meta.entrypoint != "" {
      m := m[Entrypoint := String(f.meta.entrypoint)];
    }
    if f.meta.mounts.Some? {
      m := m[Mounts := f.meta.mounts.value];
    }
    assert forall p :: GetRaw(basics, p) == if p in basics then Some(basics[p]) else None;
  }

  /** The lifecycle commands that are not empty. */
  method WriteCommands(f: ResolvedFeature, m0: LabelEntry) returns (m: LabelEntry)
    requires forall stage :: GetRaw(m0, Command(stage)) == None
    ensures forall p: Property :: GetRaw(m, p) == if p.Command? then Member(f, p) else GetRaw(m0, p)
  {
    hide JsonStrings, JsonEnv;
    m := m0;
    if !IsEmpty(f.meta.onCreateCommand) {
      m := m[Command(OnCreate) := f.meta.onCreateCommand.value];
    }
    if !IsEmpty(f.meta.updateContentCommand) {
      m := m[Command(UpdateContent) := f.meta.updateContentCommand.value];
    }
    if !IsEmpty(f.meta.postCreateCommand) {
      m := m[Command(PostCreate) := f.meta.postCreateCommand.value];
    }
    if !IsEmpty(f.meta.postStartCommand) {
      m := m[Command(PostStart) := f.meta.postStartCommand.value];
    }
    if !IsEmpty(f.meta.postAttachCommand) {
      m := m[Command(PostAttach) := f.meta.postAttachCommand.value];
    }
  }

  /** What an object holds for a feature, member by member: zero values are left out, and nothing else is there. */
  lemma MembersWritten(o: LabelEntry, f: ResolvedFeature)
    requires HasMembers(o, f)
    ensures ReadsRaw(o, Id, Some(String(f.meta.id))) && ReadsRaw(o, Version, Some(String(f.meta.version)))
    ensures ReadsRaw(o, Name, Some(String(f.meta.name)))
    ensures ReadsRaw(o, Options, if |f.ref.options| > 0 then Some(Object(f.ref.options)) else None)
    ensures (ContainerEnv in o <==> |f.meta.containerEnv| > 0) && ReadsEnv(o, ContainerEnv, f.meta.containerEnv)
    ensures ReadsRaw(o, Init, if f.meta.init then Some(Bool(true)) else None)
    ensures ReadsRaw(o, Privileged, if f.meta.privileged then Some(Bool(true)) else None)
    ensures (CapAdd in o <==> |f.meta.capAdd| > 0) && ReadsList(o, CapAdd, f.meta.capAdd)
    ensures (SecurityOpt in o <==> |f.meta.securityOpt| > 0) && ReadsList(o, SecurityOpt, f.meta.securityOpt)
    ensures (Entrypoint in o <==> f.meta.entrypoint != "") && ReadsString(o, Entrypoint, f.meta.entrypoint)
    ensures ReadsRaw(o, Mounts, f.meta.mounts) && ReadsRaw(o, Customizations, f.meta.customizations)
    ensures HoldsCommand(o, OnCreate, f.meta.onCreateCommand) && HoldsCommand(o, UpdateContent, f.meta.updateContentCommand)
    ensures HoldsCommand(o, PostCreate, f.meta.postCreateCommand) && HoldsCommand(o, PostStart, f.meta.postStartCommand)
    ensures HoldsCommand(o, PostAttach, f.meta.postAttachCommand)
    ensures forall p :: p in o ==> !p.RemoteUser? && !p.ContainerUser? && !p.WorkspaceFolder? && !p.OtherProperty?
  {
    hide *;
    PlainMembers(o, f);
    ListMembers(o, f);
    CommandMembers(o, f);
    MembersReadBack(o, f);
  }

  lemma PlainMembers(o: LabelEntry, f: ResolvedFeature)
    requires HasMembers(o, f)
    ensures ReadsRaw(o, Id, Some(String(f.meta.id))) && ReadsRaw(o, Version, Some(String(f.meta.version)))
    ensures ReadsRaw(o, Name, Some(String(f.meta.name)))
    ensures ReadsRaw(o, Options, if |f.ref.options| > 0 then Some(Object(f.ref.options)) else None)
    ensures ReadsRaw(o, Init, if f.meta.init then Some(Bool(true)) else None)
    ensures ReadsRaw(o, Privileged, if f.meta.privileged then Some(Bool(true)) else None)
  {
    assert GetRaw(o, Id) == Member(f, Id) && GetRaw(o, Version) == Member(f, Version) && GetRaw(o, Name) == Member(f, Name);
    assert GetRaw(o, Options) == Member(f, Options) && GetRaw(o, Init) == Member(f, Init);
    assert GetRaw(o, Privileged) == Member(f, Privileged);
    hide HasMembers, JsonEnv, JsonStrings;
  }

  lemma ListMembers(o: LabelEntry, f: ResolvedFeature)
    requires HasMembers(o, f)
    ensures (ContainerEnv in o <==> |f.meta.containerEnv| > 0) && (CapAdd in o <==> |f.meta.capAdd| > 0)
    ensures SecurityOpt in o <==> |f.meta.securityOpt| > 0
    ensures (Entrypoint in o <==> f.meta.entrypoint != "") && ReadsString(o, Entrypoint, f.meta.entrypoint)
    ensures ReadsRaw(o, Mounts, f.meta.mounts) && ReadsRaw(o, Customizations, f.meta.customizations)
  {
    assert GetRaw(o, ContainerEnv) == Member(f, ContainerEnv) && GetRaw(o, CapAdd) == Member(f, CapAdd);
    assert GetRaw(o, SecurityOpt) == Member(f, SecurityOpt) && GetRaw(o, Entrypoint) == Member(f, Entrypoint);
    assert GetRaw(o, Mounts) == Member(f, Mounts) && GetRaw(o, Customizations) == Member(f, Customizations);
    hide HasMembers, JsonEnv, JsonStrings;
  }

  lemma CommandMembers(o: LabelEntry, f: ResolvedFeature)
    requires HasMembers(o, f)
    ensures HoldsCommand(o, OnCreate, f.meta.onCreateCommand) && HoldsCommand(o, UpdateContent, f.meta.updateContentCommand)
    ensures HoldsCommand(o, PostCreate, f.meta.postCreateCommand) && HoldsCommand(o, PostStart, f.meta.postStartCommand)
    ensures HoldsCommand(o, PostAttach, f.meta.postAttachCommand)
    ensures forall p :: p in o ==> !p.RemoteUser? && !p.ContainerUser? && !p.WorkspaceFolder? && !p.OtherProperty?
  {
    hide JsonEnv, JsonStrings;
    assert forall stage :: GetRaw(o, Command(stage)) == Member(f, Command(stage));
    forall p | p in o ensures Member(f, p).Some? { assert GetRaw(o, p) == Member(f, p); }
  }

  ghost predicate HoldsCommand(o: LabelEntry, stage: Stage, c: Raw) {
    ReadsRaw(o, Command(stage), if c.None? || c.value.Null? then None else c)
  }

  lemma MembersReadBack(o: LabelEntry, f: ResolvedFeature)
    requires HasMembers(o, f)
    ensures ReadsList(o, CapAdd, f.meta.capAdd) && ReadsList(o, SecurityOpt, f.meta.securityOpt)
    ensures ReadsEnv(o, ContainerEnv, f.meta.containerEnv)
  {
    ListsReadBack(o, f);
    MembersMeanings(o);
    hide *;
  }

  // ---------------------------------------------------------------------
  // Round trip

  /** The entries that a list of features stands for, in install order. */
  function FeatureEntries(fs: seq<ResolvedFeature>): seq<Entry> {
    if fs == [] then [] else FeatureEntries(fs[..|fs| - 1]) + [EntryOf(fs[|fs| - 1].meta)]
  }

  /** Entry by entry, what the reader is to find. */
  lemma {:induction false} FeatureEntriesMean(fs: seq<ResolvedFeature>)
    ensures |FeatureEntries(fs)| == |fs|
    ensures forall i :: 0 <= i < |fs| ==>
              var e, m := FeatureEntries(fs)[i], fs[i].meta;
              && e.id == m.id && e.init == m.init && e.privileged == m.privileged && e.capAdd == m.capAdd
              && e.securityOpt == m.securityOpt && e.entrypoint == m.entrypoint && e.mounts == m.mounts
              && e.containerEnv == m.containerEnv
              && e.commands(OnCreate) == m.onCreateCommand && e.commands(UpdateContent) == m.updateContentCommand
              && e.commands(PostCreate) == m.postCreateCommand && e.commands(PostStart) == m.postStartCommand
              && e.commands(PostAttach) == m.postAttachCommand
  {
    if fs != [] { FeatureEntriesMean(fs[..|fs| - 1]); }
  }

  ghost predicate SameEntries(as_: seq<Entry>, bs: seq<Entry>) {
    |as_| == |bs| && forall i :: 0 <= i < |as_| ==> SameEntry(as_[i], bs[i])
  }

  lemma {:induction false} DecodesAs(os: seq<LabelEntry>, fs: seq<ResolvedFeature>)
    requires |os| == |fs| && forall i :: 0 <= i < |fs| ==> ReadsAs(os[i], fs[i].meta)
    ensures DecodeAll(os).Some? && SameEntries(DecodeAll(os).value, FeatureEntries(fs))
  {
    hide Decode, SameEntry, EntryOf;
    if os != [] { DecodesAs(os[..|os| - 1], fs[..|fs| - 1]); }
  }

  lemma {:induction false} SameNamed(as_: seq<Entry>, bs: seq<Entry>)
    requires SameEntries(as_, bs)
    ensures SameEntries(Named(as_), Named(bs))
  {
    if as_ != [] {
      var n := |as_| - 1;
      assert SameEntry(as_[n], bs[n]);
      SameNamed(as_[..n], bs[..n]);
      assert as_[n].id == bs[n].id;
      hide SameEntry;
    }
  }

  lemma SameAbsorbed(meta: ImageMeta, a: Entry, b: Entry)
    requires SameEntry(a, b)
    ensures Absorbed(meta, a) == Absorbed(meta, b)
  {
    assert Appended(meta.onCreateCommands, a.commands(OnCreate)) == Appended(meta.onCreateCommands, b.commands(OnCreate));
    assert Appended(meta.updateContentCommands, a.commands(UpdateContent))
        == Appended(meta.updateContentCommands, b.commands(UpdateContent));
    assert Appended(meta.postCreateCommands, a.commands(PostCreate)) == Appended(meta.postCreateCommands, b.commands(PostCreate));
    assert Appended(meta.postStartCommands, a.commands(PostStart)) == Appended(meta.postStartCommands, b.commands(PostStart));
    assert Appended(meta.postAttachCommands, a.commands(PostAttach)) == Appended(meta.postAttachCommands, b.commands(PostAttach));
    hide Appended, MountsIn;
  }

  lemma {:induction false} SameGathered(as_: seq<Entry>, bs: seq<Entry>)
    requires SameEntries(as_, bs)
    ensures Gathered(as_) == Gathered(bs)
  {
    if as_ != [] {
      var n := |as_| - 1;
      hide Gathered, Absorbed, SameEntry, Named;
      SameGathered(as_[..n], bs[..n]);
      assert as_ == as_[..n] + [as_[n]] && bs == bs[..n] + [bs[n]];
      assert SameEntry(as_[n], bs[n]);
      hide SameEntries;
      GatheredMore(as_[..n], as_[n]);
      GatheredMore(bs[..n], bs[n]);
      SameAbsorbed(Gathered(as_[..n]), as_[n], bs[n]);
    }
  }

  /**
   Whatever `BuildFeatureMetadata` writes, reading the label amounts to the
   features with an ID, directly and in install order.
   */
  lemma WriteReadBack(fs: seq<ResolvedFeature>, written: seq<LabelEntry>)
    requires |written| == |fs| && forall i :: 0 <= i < |fs| ==> ReadsAs(written[i], fs[i].meta)
    ensures Combined(Named(EntriesOf(Entries(written)))) == Combined(Named(FeatureEntries(fs)))
  {
    DecodesAs(written, fs);
    var es, gs := EntriesOf(Entries(written)), FeatureEntries(fs);
    hide EntriesOf, FeatureEntries, ReadsAs;
    SameNamed(es, gs);
    SameGathered(Named(es), Named(gs));
    hide Named, Caps, SecurityOpts;
  }

  /** When every feature has an ID, none is skipped. */
  lemma {:induction false} AllNamed(fs: seq<ResolvedFeature>)
    requires forall i :: 0 <= i < |fs| ==> fs[i].meta.id != ""
    ensures Named(FeatureEntries(fs)) == FeatureEntries(fs)
  {
    if fs != [] {
      AllNamed(fs[..|fs| - 1]);
      var es := FeatureEntries(fs);
      assert es[..|es| - 1] == FeatureEntries(fs[..|fs| - 1]);
    }
  }

  // ---------------------------------------------------------------------
  // Substitution in the metadata

  /** `substituteLifecycleCommand`: strings and arrays of strings; objects stay as they are. */
  function SubstituteCommand(lc: Raw, host: Host, containerFolder: string): Raw {
    if IsEmpty(lc) then lc
    else if AsString(lc).Some? then Some(String(Substitute(AsString(lc).value, host, containerFolder)))
    else if AsArray(lc).Some? then
      var args := AsArray(lc).value;
      Some(JsonStrings(seq(|args|, i requires 0 <= i < |args| => Substitute(args[i], host, containerFolder))))
    else lc
  }

  /** `r` is `lc` with its texts substituted: a string, or each element of an array of strings. */
  ghost predicate CommandSubstituted(lc: Raw, r: Raw, host: Host, containerFolder: string) {
    match lc
    case Some(String(s)) => r == Some(String(Substitute(s, host, containerFolder)))
    case Some(Array(items)) =>
      if exists i :: 0 <= i < |items| && !items[i].String? && !items[i].Null? then r == lc
      else && r.Some? && r.value.Array? && |r.value.items| == |items|
           && forall i :: 0 <= i < |items| ==>
                r.value.items[i] == String(if items[i].String? then Substitute(items[i].text, host, containerFolder) else "")
    case _ => r == lc
  }

  lemma SubstituteCommandMeans(lc: Raw, host: Host, containerFolder: string)
    ensures CommandSubstituted(lc, SubstituteCommand(lc, host, containerFolder), host, containerFolder)
  {
    EmptyText(host);
    hide Substitute;
  }

  ghost predicate CommandsSubstituted(cs: seq<Raw>, rs: seq<Raw>, host: Host, containerFolder: string) {
    |rs| == |cs| && forall i :: 0 <= i < |cs| ==> CommandSubstituted(cs[i], rs[i], host, containerFolder)
  }

  function SubstituteCommands(cs: seq<Raw>, host: Host, containerFolder: string): (r: seq<Raw>)
    ensures |r| == |cs| && forall i :: 0 <= i < |cs| ==> r[i] == SubstituteCommand(cs[i], host, containerFolder)
  {
    seq(|cs|, i requires 0 <= i < |cs| => SubstituteCommand(cs[i], host, containerFolder))
  }

  /** `imageMetadata.substitute`. */
  function SubstituteMeta(m: ImageMeta, host: Host, containerFolder: string): ImageMeta {
    m.(mounts := seq(|m.mounts|, i requires 0 <= i < |m.mounts| => SubstituteMount(m.mounts[i], host, containerFolder)),
       entrypoint := Substitute(m.entrypoint, host, containerFolder),
       onCreateCommands := SubstituteCommands(m.onCreateCommands, host, containerFolder),
       updateContentCommands := SubstituteCommands(m.updateContentCommands, host, containerFolder),
       postCreateCommands := SubstituteCommands(m.postCreateCommands, host, containerFolder),
       postStartCommands := SubstituteCommands(m.postStartCommands, host, containerFolder),
       postAttachCommands := SubstituteCommands(m.postAttachCommands, host, containerFolder),
       containerEnv := map k | k in m.containerEnv :: Substitute(m.containerEnv[k], host, containerFolder))
  }

  /** `r` is `m` with the texts of mounts, entrypoint, commands and variables substituted, and the rest kept. */
  ghost predicate MetaSubstituted(m: ImageMeta, r: ImageMeta, host: Host, containerFolder: string) {
    && r.init == m.init && r.privileged == m.privileged && r.capAdd == m.capAdd && r.securityOpt == m.securityOpt
    && |r.mounts| == |m.mounts|
    && (forall i :: 0 <= i < |m.mounts| ==> MountSubstituted(m.mounts[i], r.mounts[i], host, containerFolder))
    && r.entrypoint == Substitute(m.entrypoint, host, containerFolder)
    && CommandsSubstituted(m.onCreateCommands, r.onCreateCommands, host, containerFolder)
    && CommandsSubstituted(m.updateContentCommands, r.updateContentCommands, host, containerFolder)
    && CommandsSubstituted(m.postCreateCommands, r.postCreateCommands, host, containerFolder)
    && CommandsSubstituted(m.postStartCommands, r.postStartCommands, host, containerFolder)
    && CommandsSubstituted(m.postAttachCommands, r.postAttachCommands, host, containerFolder)
    && r.containerEnv.Keys == m.containerEnv.Keys
    && forall k :: k in m.containerEnv ==> r.containerEnv[k] == Substitute(m.containerEnv[k], host, containerFolder)
  }

  lemma SubstituteMetaMeans(m: ImageMeta, host: Host, containerFolder: string)
    ensures MetaSubstituted(m, SubstituteMeta(m, host, containerFolder), host, containerFolder)
  {
    hide Substitute, SubstituteMount, MountSubstituted, SubstituteCommand, CommandSubstituted;
    forall mount ensures MountSubstituted(mount, SubstituteMount(mount, host, containerFolder), host, containerFolder) {
      SubstituteMountMeans(mount, host, containerFolder);
    }
    forall lc ensures CommandSubstituted(lc, SubstituteCommand(lc, host, containerFolder), host, containerFolder) {
      SubstituteCommandMeans(lc, host, containerFolder);
    }
  }

  /** One of the loops of `substitute` over a list of commands. */
  method SubstituteEachCommand(cs: seq<Raw>, host: Host, containerFolder: string) returns (r: seq<Raw>)
    ensures r == SubstituteCommands(cs, host, containerFolder)
  {
    hide SubstituteCommand;
    r := cs;
    for i := 0 to |cs|
      invariant |r| == |cs| && r[i..] == cs[i..]
      invariant forall k :: 0 <= k < i ==> r[k] == SubstituteCommand(cs[k], host, containerFolder)
    {
      assert r[i] == r[i..][0] == cs[i];
      r := r[i := SubstituteCommand(r[i], host, containerFolder)];
    }
  }

  method SubstituteEachMount(ms: seq<Raw>, host: Host, containerFolder: string) returns (r: seq<Raw>)
    ensures |r| == |ms| && forall i :: 0 <= i < |ms| ==> r[i] == SubstituteMount(ms[i], host, containerFolder)
  {
    hide SubstituteMount;
    r := ms;
    for i := 0 to |ms|
      invariant |r| == |ms| && r[i..] == ms[i..]
      invariant forall k :: 0 <= k < i ==> r[k] == SubstituteMount(ms[k], host, containerFolder)
    {
      assert r[i] == r[i..][0] == ms[i];
      r := r[i := SubstituteMount(r[i], host, containerFolder)];
    }
  }

  method SubstituteEachValue(env: map<string, string>, host: Host, containerFolder: string) returns (r: map<string, string>)
    ensures r == map k | k in env :: Substitute(env[k], host, containerFolder)
  {
    hide Substitute;
    r := env;
    var keys := env.Keys;
    while keys != {}
      invariant keys <= env.Keys == r.Keys
      invariant forall k :: k in env ==> r[k] == if k in keys then env[k] else Substitute(env[k], host, containerFolder)
      decreases |keys|
    {
      var k :| k in keys;
      r := r[k := Substitute(r[k], host, containerFolder)];
      keys := keys - {k};
    }
  }

  /** `imageMetadata.substitute`, field by field. */
  method SubstituteInPlace(m: ImageMeta, host: Host, containerFolder: string) returns (r: ImageMeta)
    ensures r == SubstituteMeta(m, host, containerFolder)
    ensures MetaSubstituted(m, r, host, containerFolder)
  {
    hide MetaSubstituted;
    r := m;
    var mounts := SubstituteEachMount(r.mounts, host, containerFolder);
    r := r.(mounts := mounts);
    if r.entrypoint != "" {
      r := r.(entrypoint := Substitute(r.entrypoint, host, containerFolder));
    } else {
      EmptyText(host);
    }
    var cs := SubstituteEachCommand(r.onCreateCommands, host, containerFolder);
    r := r.(onCreateCommands := cs);
    cs := SubstituteEachCommand(r.updateContentCommands, host, containerFolder);
    r := r.(updateContentCommands := cs);
    cs := SubstituteEachCommand(r.postCreateCommands, host, containerFolder);
    r := r.(postCreateCommands := cs);
    cs := SubstituteEachCommand(r.postStartCommands, host, containerFolder);
    r := r.(postStartCommands := cs);
    cs := SubstituteEachCommand(r.postAttachCommands, host, containerFolder);
    r := r.(postAttachCommands := cs);
    var env := SubstituteEachValue(r.containerEnv, host, containerFolder);
    r := r.(containerEnv := env);
    SubstituteMetaMeans(m, host, containerFolder);
    hide Substitute, SubstituteMount, SubstituteCommands;
  }
}
