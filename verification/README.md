# dcx: a verified model of feature ordering, container lifecycle and text handling

dcx drives development containers from `devcontainer.json`. This project models the parts of it
where correctness depends on algorithms, on state, or on two pieces of code agreeing with each
other, and proves what those parts promise.

**Features.** `Topo.dfy` is the theory of precedence graphs: linear extensions, their lexicographic
order, cycles and greedy runs. `FeatureOrder.dfy` is `Ordered` as written (two maps, duplicated
edges, a queue sorted after every pop), proved against a specification that does not mention the
algorithm. `OrderTheorems.dfy` draws the consequences: when ordering succeeds, what the order
respects, and what the order of the input can do to it; `OrderExact.dfy` says exactly when that is
nothing. `FeatureIds.dfy` has the parser, the printer and the version strippers; `ConfigMerge.dfy`
the two merges; `FeatureTag.dfy` the bytes hashed into the image tag; `Lockfile.dfy` the lockfile.
`FeatureBuild.dfy` puts them together: a build takes the features from a Go map in any order, and
gives one result whatever that order, unless references can be ambiguous; `BuildExact.dfy` says
exactly when they can: when two features share a short ID that is nobody's canonical ID.

**Containers.** `DockerModel.dfy` is a daemon whose operations take effect or fail without effect;
a *reliable* daemon does everything that can be done, though *stuck* containers cannot be removed. `Teardown.dfy` has stopping, removing,
discovery and the `dcx stop` and `dcx down` sequences, `Lifecycle.dfy` the chain of lifecycle
commands, `UpNative.dfy` the `Up` function, and `Runs.dfy` arbitrary sequences of all of them.

**Texts.** `Scan.dfy` writes the two `${...}` patterns as explicit scans, and `Settle.dfy` is the
theory of texts that a second pass leaves alone; `Vars.dfy` and `EnvExpand.dfy` are the three
expanders over them. `MountSpec.dfy` is the mount-string parser and printer, `Metadata.dfy` the
writer and the reader of the `devcontainer.metadata` label.

`Text.dfy`, `Collections.dfy`, `FeatureData.dfy` and `Wrappers.dfy` hold shared definitions. Code
that assigns to fields or loops over variables is a method proved against a function or a relation
of its inputs and the old state; code made of expressions is a function. Where Go ranges over a map, the method
chooses the next key arbitrarily, so a contract holds for every iteration order.

Facts that the proofs turned up, each stated with its exact condition where there is one:

- Without an override order and with all dependencies known, two features with the same canonical ID
  end in the "circular" error, whatever their references (`OrderTheorems.DuplicateIsCircular`).
- When two features share a short ID, the input order decides which of them a reference to it
  means, unless it is also somebody's canonical ID. If canonical IDs are distinct, there is metadata
  for every such pair for which one order succeeds and another fails, and without one there is none
  (`OrderExact.OrderInvisibleIff`, `BuildExact.MapOrderInvisibleIff`). Two orders can also both
  succeed with different results (`OrderTheorems.AmbiguityLeaks`).
- A version given as an option keeps its case, but raw IDs are lower-cased; an OCI reference with an
  upper-case version therefore does not survive printing and parsing
  (`FeatureIds.UppercaseVersionLost`).
- All local features without a version option print as `:latest`, so the hashed bytes can depend on
  the order of the features (`FeatureTag.LocalsUndetermined`, `FeatureTag.HashOrderIrrelevantIff`).
- Merging feature lists is merging maps exactly when the printed IDs are distinct; `x` and
  `x:latest` in the lists of user and project break it (`ConfigMerge.MergeLawIff`,
  `FeatureIds.FeatureIDIdempotent`).
- An empty value can bring two halves of a reference together (`Vars.EmptyValueRevives`). The values
  that never leave a reference are characterised in `Vars.CleanValueIff`, and those that never leave
  one which a later pass would change in `Vars.SettledValueIff`; both may contain braces.
- A workspace folder that names itself, and nothing else that is known, is left alone by a pass
  exactly when it is the reference alone; otherwise the pass lengthens it
  (`Vars.SelfReferenceLengthens`). Without a dollar sign around the reference each further pass does
  so too (`Vars.SelfReferenceGrows`); with one, growth can come to an end (`Vars.SelfReferenceEnds`).
- The lazy and the negated-class pattern expand a text alike exactly when no reference of either
  holds what the other excludes, a brace or a newline (`Scan.PatternsAgreeIff`).
- If a compose container cannot be removed, `dcx down` fails, and a second one finds no labelled
  container, reports success and leaves the rest (`Teardown.RetryLeavesRest`). Repeating a failed run
  completes it in every case exactly for stacks of the folder's own containers
  (`Teardown.RetryAlwaysCompletesIff`), and in a given case under the condition of
  `Teardown.RetryCompletesIff`.
- A container whose first start failed is later restarted with the postStart commands alone; its
  creation commands never run (`Runs.FailedCreationIsFinal`, `Runs.CreatedThenRestarted`).
- The comment at devcontainer/vars.go:30 promises the default of `localEnv:NAME:DEFAULT` for an unset
  variable. The code also uses it for a variable that is set and empty; the model follows the code
  (`Vars.LocalEnvValues`).

## Model

| member | source | states |
|---|---|---|
| `Topo.GreedyLeast` | internal/devcontainer/features/order.go:91-111 | taking the smallest ready node each time is globally optimal: no linear extension is lexicographically smaller |
| `Topo.StuckGivesCycle` | internal/devcontainer/features/order.go:94-115 | when nothing is ready and a node is missing, the missing nodes contain an explicit cycle, self-loops included |
| `Topo.GreedyOutcome` | internal/devcontainer/features/order.go:94-117 | a finished run covers the graph if and only if the graph is acyclic, and is then the least extension |
| `Topo.ExtensionIffAcyclic` | internal/devcontainer/features/order.go:113-115 | an order respecting all edges exists if and only if there is no cycle |
| `Topo.LeastExtensionUnique` | internal/devcontainer/features/order.go:91-110 | the least order is unique, so sorting the queue makes the output deterministic |
| `Topo.PendingAfter` | internal/devcontainer/features/order.go:104-108 | emitting a node lowers a successor's open edges once per duplicated edge |
| `FeatureOrder.BuildIndex` | internal/devcontainer/features/order.go:29-39 | both maps hold, per key, the last feature with it |
| `FeatureOrder.GraphMeaning` | internal/devcontainer/features/order.go:62-81 | there is an edge from a to b if and only if some feature named b has an `installsAfter` entry that resolves to a |
| `FeatureOrder.LookupMeans` | internal/devcontainer/features/order.go:42-51 | a reference finds the last feature whose canonical ID is the reference without its tag, or else the last one with that short ID |
| `FeatureOrder.CheckDependsOn` | internal/devcontainer/features/order.go:53-60 | passes only if every `dependsOn` key resolves, and otherwise names a feature and its missing key |
| `FeatureOrder.AddEdges` | internal/devcontainer/features/order.go:70-80 | adjacency and degrees record exactly the edges of one more feature, duplicates counted |
| `FeatureOrder.BuildGraph` | internal/devcontainer/features/order.go:64-81 | adjacency lists and degrees describe the reference graph |
| `FeatureOrder.InitialQueue` | internal/devcontainer/features/order.go:84-89 | the queue starts with each node of degree zero once, in any map order |
| `FeatureOrder.Release` | internal/devcontainer/features/order.go:102-109 | after the inner loop, degrees count the edges from nodes not yet emitted and the queue holds exactly the ready nodes |
| `FeatureOrder.Kahn` | internal/devcontainer/features/order.go:94-111 | the loop ends, and emits a greedy run that nothing can be added to |
| `FeatureOrder.Ordered` | internal/devcontainer/features/order.go:24-118 | the outcome is one the specification permits: the three errors only for their reasons, success only with a permutation that is the least extension |
| `OrderTheorems.SucceedsIff` | internal/devcontainer/features/order.go:24-118 | success if and only if no override, all dependencies known, IDs distinct and no cycle; the "circular" error if and only if the last two fail |
| `OrderTheorems.CircularHasCycle` | internal/devcontainer/features/order.go:113-115 | for distinct IDs the "circular" error comes with a cycle of `installsAfter` references |
| `OrderTheorems.DuplicateIsCircular` | internal/devcontainer/features/order.go:113-115 | without an override order and with all dependencies known, two features with one canonical ID give the "circular" error |
| `OrderTheorems.RespectsReferences` | internal/devcontainer/features/order.go:72-80 | the result is a permutation with every resolved target strictly before its dependent |
| `OrderTheorems.LexicographicallyLeast` | internal/devcontainer/features/order.go:91-111 | no other order of the same features that respects the references has a smaller ID sequence |
| `Text.StrLeqMeans` | internal/devcontainer/features/order.go:92 | the order of `sort.Strings`: a prefix comes first, and otherwise the characters at the first difference decide |
| `OrderTheorems.EarlierIsSmaller` | internal/devcontainer/features/order.go:91-111 | a feature that stands before another one all of whose targets had been installed has the smaller ID, in code points |
| `OrderTheorems.FreeInCodePointOrder` | internal/devcontainer/features/order.go:91-111 | of two features whose references do not resolve, the one whose ID is a prefix of the other's, or smaller at the first difference, comes first |
| `OrderTheorems.LookupFound` | internal/devcontainer/features/order.go:42-51 | whether an ID is found never depends on the input order, and what it resolves to does only when it is ambiguous |
| `OrderTheorems.InputOrderIrrelevant` | internal/devcontainer/features/build.go:29-56 | permuting given features gives the same order or the same kind of error, as long as none of their references is ambiguous |
| `OrderTheorems.AmbiguityLeaks` | internal/devcontainer/features/order.go:36-38 | for three features, two of which share a short ID that the third installs after, both input orders succeed, with different results |
| `OrderExact.OutcomeExists` | internal/devcontainer/features/order.go:24-118 | the specification permits an outcome for every list of features |
| `OrderExact.SharedShortIDLeaks` | internal/devcontainer/features/order.go:36-51 | with distinct canonical IDs, for every pair sharing a short ID that is nobody's canonical ID there is metadata for which one input order succeeds and another is "circular" |
| `OrderExact.OrderInvisibleIff` | internal/devcontainer/features/order.go:29-51 | for all metadata and input orders the outcome is the same if and only if a canonical ID is repeated or no two features share a short ID that is nobody's canonical ID |
| `OrderTheorems.AmbiguityExample` | internal/devcontainer/features/order.go:36-38 | three concrete local features of that kind |
| `FeatureIds.TagRoundTrip` | internal/devcontainer/features/order.go:121-126 | stripping a text tagged with a plain version gives the text and its version back |
| `FeatureIds.TagSplits` | internal/devcontainer/features/order.go:121-126 | a tagged ID is its stripped form, a colon and a tag without separators |
| `FeatureIds.TagsIff` | internal/devcontainer/features/order.go:121-126 | stripped form and tag are the parts around the one colon with no separator after it, or there is none |
| `FeatureIds.StrippersAgree` | internal/cli/up.go:282-289 | `baseFeatureID` and `stripVersion` agree on every ID except a leading, sole colon without any slash |
| `FeatureIds.FeatureIDMeaning` | internal/config/types.go:21-28 | `:latest` is added exactly when there is no non-empty version tag |
| `FeatureIds.FeatureIDIdempotent` | internal/config/types.go:21-28 | an effective ID is its own effective ID, so an ID without a version and the same with `:latest` coincide |
| `FeatureIds.ParseOCIRef` | internal/devcontainer/features/resolve.go:107-136 | the fields of a reference: a tag overrides the version, the first and last slash separate the parts, fewer slashes are errors |
| `FeatureIds.Parse` | internal/devcontainer/features/resolve.go:59-103 | source, version, options and errors for every raw ID and option value, field by field |
| `FeatureIds.ParseOptions` | internal/devcontainer/features/resolve.go:81-94 | options are refused exactly when they are a number, a flag or an array; an object is taken over whole |
| `FeatureIds.ParseLocal` | internal/devcontainer/features/resolve.go:67-68 | a text beginning with `./` or `../` is taken as it is, lower-cased, with the version option or `latest` |
| `FeatureIds.ParseTarball` | internal/devcontainer/features/resolve.go:69-77 | a URL loses its tag; a version option comes before the tag |
| `FeatureIds.ParseOCI` | internal/devcontainer/features/resolve.go:107-136 | every other text is registry, namespace and ID between its first and last slash, with tag, version option or `latest` in that order; no slash and one slash are the two errors |
| `FeatureIds.ParsedIffRefers` | internal/devcontainer/features/resolve.go:59-103 | a text and options parse to a reference if and only if the reference is the one just described |
| `FeatureIds.OCIShape` | internal/devcontainer/features/resolve.go:107-136 | a parsed OCI reference puts its stripped raw ID together again, lower-cased, with its tag as version |
| `FeatureIds.OCIRoundTrip` | internal/devcontainer/features/resolve.go:30-46 | printing and parsing recovers registry, namespace, ID and version if and only if all parts are present and the version is plain and lower-case |
| `FeatureIds.PrintedCanonical` | internal/devcontainer/features/order.go:13-18 | the printed and the raw form of an OCI reference have the same canonical ID, registry ports included, if and only if registry and namespace are there and what follows the ID is at most one plain version |
| `FeatureIds.UppercaseVersionLost` | internal/devcontainer/features/resolve.go:84-86 | an upper-case version option is taken over and is not recovered |
| `FeatureIds.UppercaseExample` | internal/devcontainer/features/resolve.go:84-86 | a concrete reference that is not recovered |
| `ConfigMerge.AsSpecFeatures` | internal/config/types.go:33-47 | the map of a list is the fold in which later entries overwrite |
| `ConfigMerge.SpecMapMeans` | internal/config/types.go:33-47 | the keys are the printed IDs, each with the options of the last feature printed so, absent options being an empty object |
| `ConfigMerge.MergeFeatures` | internal/config/load.go:256-281 | user features in order, the last of each ID replaced by the project's last one, then the project-only features in order |
| `ConfigMerge.MergedMeans` | internal/config/load.go:256-281 | the merged list by positions: which user features give way to which project features, and which project features follow in which order |
| `ConfigMerge.MergedFound` | internal/config/load.go:267-278 | looking up any ID in the merged list finds the project's feature, or else the user's |
| `ConfigMerge.InjectiveMerge` | internal/config/load.go:256-281 | the map of the merged list is the user's map overridden by the project's, if the IDs print differently |
| `ConfigMerge.CollisionBreaksMerge` | internal/config/types.go:21-28 | two IDs printing alike give lists for which that fails |
| `ConfigMerge.MergeLawIff` | internal/config/load.go:256-281 | for all lists over a set of IDs, the law holds if and only if printing is injective on the set |
| `ConfigMerge.ProjectBases` | internal/cli/up.go:265-268 | the bases of the project's features, in any map order |
| `ConfigMerge.MergeDefaultFeatures` | internal/cli/up.go:257-278 | keeps the project's entries, admits no default whose base the project has, and exactly one for every other default base |
| `ConfigMerge.DefaultsDetermined` | internal/cli/up.go:269-276 | with distinct bases the result has exactly the project's keys and the unshadowed defaults |
| `ConfigMerge.DefaultsDeterministicIff` | internal/cli/up.go:269-276 | the map iteration order is invisible if and only if the unshadowed default bases are distinct |
| `FeatureTag.WriteFirst` | internal/devcontainer/features/build.go:140-149 | the inner loop writes the first feature with the key and stops |
| `FeatureTag.WriteHash` | internal/devcontainer/features/build.go:130-150 | everything written to the hash, for any features |
| `FeatureTag.HashMeans` | internal/devcontainer/features/build.go:130-150 | the bytes are the base and then, for the sorted printed IDs, ID, version, encoded options and digest of the first feature printed so |
| `FeatureTag.HashOrderIrrelevantIff` | internal/devcontainer/features/build.go:133-150 | the hashed bytes are the same for all permutations if and only if features printed alike contribute alike |
| `FeatureTag.HashIsSortedConcatenation` | internal/devcontainer/features/build.go:133-150 | with distinct printed IDs the quadratic search is sort by key, then concatenate: each feature once |
| `FeatureTag.LocalPrints` | internal/devcontainer/features/resolve.go:67-68 | a local feature without a version option prints as `:latest` |
| `FeatureTag.LocalsUndetermined` | internal/devcontainer/features/build.go:134-141 | two local features that contribute differently violate the condition for order independence |
| `Lockfile.BuildLockfile` | internal/devcontainer/features/build.go:69-81 | one entry per recorded OCI feature, its dependencies sorted, later ones overwriting |
| `Lockfile.LockMeans` | internal/devcontainer/features/build.go:69-81 | version, location, integrity and sorted dependencies under a key are those of the last OCI feature with a digest and that raw ID; there is no other key |
| `Lockfile.LookupMeans` | internal/devcontainer/features/lockfile.go:62-78 | a look-up ignores case and gives what follows the last `@sha256:` of the location, or nothing |
| `Lockfile.DependsOnKeys` | internal/devcontainer/features/build.go:156-169 | the keys of the map, each once and sorted, whatever the map order |
| `Lockfile.LockFound` | internal/devcontainer/features/build.go:69-81 | the entry under a raw ID is that of the last feature with it |
| `Lockfile.ExtractIff` | internal/devcontainer/features/lockfile.go:70-77 | the digest cut out of a location is the recorded one if and only if it is a `sha256:` digest without another marker |
| `Lockfile.LockfileReadsBackIff` | internal/devcontainer/features/lockfile.go:62-78 | looking up a recorded raw ID gives its digest if and only if the digest is of that form |
| `FeatureBuild.ParseAll` | internal/devcontainer/features/build.go:28-35 | every entry parsed once, in any map order, or an entry that does not parse |
| `FeatureBuild.ResolveAll` | internal/devcontainer/features/build.go:45-53 | one resolved feature per reference, or a reference that cannot be resolved |
| `FeatureBuild.PrepareBuild` | internal/devcontainer/features/build.go:26-85 | install order, hashed bytes and lockfile for some order of the map, or a failure for its reason |
| `FeatureBuild.Phase` | internal/devcontainer/features/build.go:28-59 | which phase a build fails in depends on the configuration alone |
| `FeatureBuild.MapOrderInvisible` | internal/devcontainer/features/build.go:29-85 | two builds of one configuration agree on install order, hashed bytes and lockfile, or fail in the same phase, however Go visits the map, as long as no reference is ambiguous |
| `BuildExact.LeakyConfigLeaks` | internal/devcontainer/features/build.go:29-59 | if every entry resolves, canonical IDs are distinct and two features share a short ID that is nobody's canonical ID, there is metadata for which one build succeeds and another fails |
| `BuildExact.MapOrderInvisibleIff` | internal/devcontainer/features/build.go:29-85 | for all metadata the order of the map is invisible in a build if and only if some entry does not resolve, a canonical ID is repeated, or no two features share a short ID that is nobody's canonical ID |
| `FeatureBuild.DistinctShortIDsSuffice` | internal/devcontainer/features/order.go:36-38 | distinct non-empty short IDs are enough for no reference to be ambiguous |
| `FeatureBuild.InstallsConfiguration` | internal/devcontainer/features/build.go:45-59 | a successful build installs the feature of every entry, each once, and no others |
| `FeatureBuild.InstalledMeans` | internal/devcontainer/features/download.go:71-120 | for every entry the feature that the registry has for its reference is installed, with its metadata, path and digest (none for a local one); the entry's own options count, defaults fill in the others, and there is no further option |
| `FeatureBuild.InstalledOnly` | internal/devcontainer/features/build.go:45-59 | every installed feature belongs to an entry in this way, and there are as many as entries |
| `FeatureBuild.PhaseMeans` | internal/devcontainer/features/build.go:28-59 | a build fails in parsing if and only if some entry stands for no reference, and in resolving if and only if all do and one is not to be had |
| `FeatureBuild.UpgradePins` | internal/devcontainer/features/build.go:68-85 | after an upgrade, looking up a configured OCI feature gives the digest just resolved, if and only if that is of the expected form |
| `FeatureBuild.UpgradePinsOnly` | internal/devcontainer/features/build.go:70-80 | every lockfile entry belongs to a configured feature |
| `DockerModel.Daemon.ContainerList` | internal/docker/docker.go:142-161 | each container with the label once, running or not, in any order |
| `Teardown.Stop` | internal/docker/docker.go:185-207 | on success exactly the folder's containers are stopped; on failure nothing is removed and no other container touched; fails on a reliable daemon only if there is none |
| `Teardown.Down` | internal/docker/docker.go:214-281 | on success exactly the folder's containers are gone; only their images and the folder's `dcx-` tags may go; on a reliable daemon their images do, and with them the first tag beginning with `dcx-` of every image labelled for the folder, unless still used |
| `Teardown.ComposeStop` | internal/compose/compose.go:67-94 | on success exactly the project's containers are stopped; on failure some of them at most; volumes and images are kept |
| `Teardown.ComposeDown` | internal/compose/compose.go:100-162 | on success exactly the project's containers are gone; volumes go only when asked for and only those they mounted, and on a reliable daemon all of these not used elsewhere |
| `Teardown.FindProjectsAndVolumes` | internal/compose/discovery.go:16-43 | the projects and named volumes of the folder's containers, each once |
| `Teardown.FindProjectContainers` | internal/compose/discovery.go:51-88 | each container of the folder or of one of its projects once |
| `Teardown.StackMeans` | internal/compose/discovery.go:51-88 | the stack by its labels: the folder's containers, and those of every compose project one of them belongs to |
| `Teardown.RunStop` | internal/cli/stop.go:28-58 | on success exactly the stack is stopped; nothing else changes in any case, volumes and images included |
| `Teardown.RunDown` | internal/cli/down.go:41-85 | on success exactly the stack is gone; on any failure only members of it; only volumes and images of theirs may go; on a reliable daemon it succeeds if no container of the stack is stuck, and then volumes go unless used and images unless another container used them |
| `Teardown.RetryCompletesIff` | internal/cli/down.go:50-70 | a repeated run that succeeds completes the removal if and only if each remaining container is labelled for the folder or shares its project with one that is |
| `Teardown.RetryFindsNothing` | internal/compose/discovery.go:16-43 | once the folder's own containers are gone, a repeated run removes nothing |
| `Teardown.RetryAlwaysCompletesIff` | internal/cli/down.go:50-70 | a repeated run that succeeds completes the removal whatever the failed one left, if and only if the stack consists of the folder's own containers |
| `Teardown.RetryLeavesRest` | internal/cli/down.go:50-70 | when another container of the stack cannot be removed, the first run fails, the second reports success, and that container is still there |
| `Teardown.HalfRemoved` | internal/cli/down.go:58-70 | a daemon with such a stack exists |
| `Lifecycle.RunLifecycleCommand` | internal/devcontainer/lifecycle.go:25-47 | executes the one command of a string or array form in the working directory, nothing for empty and object forms |
| `Lifecycle.ArgvMeans` | internal/devcontainer/lifecycle.go:25-47 | a string is run by `/bin/sh -c`, an array of strings as it is; nothing else has a command line |
| `Lifecycle.RunEach` | internal/devcontainer/up.go:207-211 | a loop over feature commands executes the prefix up to and including the first failure |
| `Lifecycle.RunChain` | internal/devcontainer/up.go:205-251 | in the stages onCreate, updateContent, postCreate, postStart, in this order, the commands of the features by position and then the configuration's are executed, each once, up to and including the first failure |
| `Lifecycle.ChainMeans` | internal/devcontainer/up.go:205-251 | that holds of whatever executes the flattened list of commands up to its first failure, and the chain succeeded if and only if each command did |
| `Lifecycle.RunPostStarts` | internal/devcontainer/up.go:508-521 | the restart path executes the same prefix of the postStart stage alone |
| `Lifecycle.StartMeans` | internal/devcontainer/up.go:508-521 | nothing but the postStart commands of features and configuration, by position and up to the first failure |
| `UpNative.LoadMeta` | internal/devcontainer/up.go:121-125 | the metadata of the image, substituted; none if it cannot be inspected |
| `UpNative.MetaUsedMeans` | internal/devcontainer/up.go:121-125 | what `Up` works with is read from the entries of the image's label and then substituted, field by field |
| `UpNative.RemoveExisting` | internal/devcontainer/up.go:259-267 | the container is gone, or at most stopped |
| `UpNative.Restart` | internal/devcontainer/up.go:99-111 | the container is started and only its postStart commands run |
| `UpNative.CreateNew` | internal/devcontainer/up.go:183-253 | one new container with the folder's label from the image; the whole chain runs only after it was seen running |
| `UpNative.Up` | internal/devcontainer/up.go:55-254 | reuse, restart, rebuild or create: what happens to every container, which commands run where, and for every error its phase, its container and the state it leaves |
| `UpNative.UpMeans` | internal/devcontainer/up.go:86-254 | after a success all executed commands ran in the returned container: the whole chain if it is new, only postStart commands if it was restarted, none if it was running |
| `UpNative.BuiltFeaturesReachUp` | internal/devcontainer/up.go:121-125 | an image labelled for some features makes `Up` work with what reading those, in install order, gives |
| `Runs.Execute` | internal/devcontainer/up.go:55-254 | carrying out any request is a step of the transition relation |
| `Runs.Session` | internal/cli/down.go:41-85 | every sequence of requests is a run |
| `Runs.StepBound` | internal/devcontainer/up.go:86-118 | no step adds a second container to a folder |
| `Runs.AtMostOneContainer` | internal/devcontainer/up.go:73-118 | over every run a folder never has more containers than it started with, or one |
| `Runs.CreationCommandsOnce` | internal/devcontainer/up.go:201-236 | a container's onCreate, updateContent and postCreate commands run only in the step that created it, in plan order up to the first failure |
| `Runs.FailedCreationIsFinal` | internal/devcontainer/up.go:191-199 | a container whose creating `Up` did not succeed never gets its creation commands |
| `Runs.CreatedThenRestarted` | internal/devcontainer/up.go:191-193 | a run of two calls: the first creates the container and cannot start it, the second restarts it, and the onCreate command is not executed |
| `Runs.CreationCommandsMeanSuccess` | internal/devcontainer/up.go:183-236 | executed creation commands show that the creating `Up` succeeded |
| `Runs.RestartRunsPostStart` | internal/devcontainer/up.go:97-112 | an `Up` that ends with an older container executes only postStart commands, in that container |
| `Runs.OldContainersUntouched` | internal/devcontainer/up.go:97-112 | no run executes a creation command in a container that existed before |
| `Scan.MatchIsShortest` | internal/mounts/mounts.go:24 | a scan finds the shortest prefix in the pattern's language, and none if there is none |
| `Scan.ScanEquations` | internal/devcontainer/vars.go:18 | scanning by the pattern's language alone: at each position the shortest text of the language is replaced whole, and any other character is kept |
| `Scan.SelfReplacement` | internal/devcontainer/vars.go:70-75 | replacing references by themselves, or having none, changes nothing |
| `Scan.OnlyUnknownRemain` | internal/devcontainer/vars.go:70-75 | with clean values, every reference left after a pass was there before and stands for itself |
| `Scan.CleanIff` | internal/devcontainer/vars.go:70-75 | the clean values are exactly those that never create a reference by being put in, in any text |
| `Scan.PatternsDifferIff` | internal/mounts/mounts.go:24 | at a position the two patterns differ if and only if `${}` or a newline is involved |
| `Scan.PatternsAgree` | internal/env/env.go:72 | the patterns find the same references and expand alike if no lazy reference holds a closing brace and no other one a newline |
| `Scan.PatternsAgreeIff` | internal/mounts/mounts.go:24 | for every text they do so for all values if and only if that holds |
| `Scan.PlainTextAlike` | internal/mounts/mounts.go:24 | it holds for every text without newlines and `${}` |
| `Settle.ScanInParts` | internal/devcontainer/vars.go:18 | the references of two texts put together are those of the first, then those of what it leaves pending and the second |
| `Settle.NoneKnownRemain` | internal/devcontainer/vars.go:70-75 | expanding a text whose known references have settled values leaves no known reference |
| `Settle.SettledStays` | internal/devcontainer/vars.go:70-75 | so a later pass changes nothing, whatever the known values are by then |
| `Settle.UnsettledShows` | internal/devcontainer/vars.go:70-75 | a value that is not settled leaves a known reference in some text with that one reference |
| `Vars.UnknownUnchanged` | internal/devcontainer/vars.go:121-122 | a text whose references are all unknown, or that has none, is returned unchanged |
| `Vars.SubstituteSettles` | internal/devcontainer/vars.go:70-75 | after substitution with clean values only unknown references are left |
| `Vars.SubstituteIdempotent` | internal/devcontainer/vars.go:70-75 | a second pass changes nothing when the values are settled, whatever the values are by then |
| `Vars.PlainValuesIdempotent` | internal/devcontainer/vars.go:70-75 | in particular when each known value is not empty and free of `$` and `{` |
| `Vars.SettledValueIff` | internal/devcontainer/vars.go:70-75 | a value is settled if and only if no later pass, on any host, changes a text it was put into |
| `Vars.DeadIff` | internal/devcontainer/vars.go:97-123 | the test for it: which pending text no known name can complete |
| `Vars.CleanValueIff` | internal/devcontainer/vars.go:97-123 | a value is clean if and only if putting it in never leaves a reference, whatever surrounds it |
| `Vars.BaseIsLastPart` | internal/devcontainer/vars.go:101-105 | the base name is the last part of a path, trailing slashes ignored |
| `Vars.BaseOfOthers` | internal/devcontainer/vars.go:101-105 | the base of the empty path is a dot, that of slashes alone a slash, and that of a lone name the name |
| `Vars.LocalEnvValues` | internal/devcontainer/vars.go:109-118 | a host variable, or the text after the second colon when it is unset or empty |
| `Vars.FolderValues` | internal/devcontainer/vars.go:24-31 | the five folder and identifier references expand to their values |
| `Vars.EmptyValueRevives` | internal/devcontainer/vars.go:70-75 | an empty value between a dollar sign and a brace creates a new reference |
| `Vars.UnsetIsEmpty` | internal/devcontainer/vars.go:113-117 | an unset host variable has such a value |
| `Vars.Config.SubstituteAll` | internal/devcontainer/vars.go:32-68 | the folder is substituted from its own old text, then with the new folder the workspace mount, every mount (strings, and the string members of objects), variable and argument, keys and positions kept |
| `Vars.ConfigIdempotent` | internal/devcontainer/vars.go:32-68 | a second pass over a whole configuration with settled values changes nothing, on any host |
| `Vars.SelfReferenceUnsettled` | internal/devcontainer/vars.go:41-43 | a workspace folder that names itself is no settled text; one pass gives it its own text as value |
| `Vars.SelfReferenceLengthens` | internal/devcontainer/vars.go:41-43 | a folder whose known references are all to itself is unchanged if and only if it is the reference alone, and longer after the pass otherwise |
| `Vars.SelfReferenceDoubles` | internal/devcontainer/vars.go:41-43 | without a dollar sign around the reference, a pass doubles what is around it |
| `Vars.SelfReferenceGrows` | internal/devcontainer/vars.go:41-43 | such a folder is longer after each further pass, or unchanged for ever if nothing is around the reference |
| `Vars.SelfReferenceEnds` | internal/devcontainer/vars.go:41-43 | a folder with a dollar sign before the reference is lengthened once and then stays on every host |
| `EnvExpand.Rematch` | internal/mounts/mounts.go:149-150 | matching a match again finds the same reference |
| `EnvExpand.LiteralsUnchanged` | internal/env/env.go:123-127 | the early return for literals agrees with expansion |
| `EnvExpand.ExpandersAgree` | internal/env/env.go:123-143 | `expandEnvVars` and `expandValue` agree when every reference is set, on texts on which the patterns agree |
| `EnvExpand.ExpandersAgreeIff` | internal/mounts/mounts.go:148-156 | with everything set they agree on a text in every environment a host can have, if and only if the patterns do or the text refers to a name that cannot be set |
| `EnvExpand.UnsetStays` | internal/mounts/mounts.go:142-156 | references to unset variables stay in a mount source as they are |
| `EnvExpand.OnlyReferencedMatters` | internal/env/env.go:117-143 | neither expander depends on a variable that the text does not refer to |
| `EnvExpand.ExplicitSplits` | internal/env/env.go:97-100 | a declaration is split at its first equals sign |
| `EnvExpand.EmptyReferenceDiffers` | internal/mounts/mounts.go:148-156 | they differ on `${}}` |
| `EnvExpand.ShorthandMeans` | internal/env/env.go:91-115 | the shorthand `NAME` means `NAME=${NAME}` |
| `EnvExpand.ShorthandReads` | internal/env/env.go:101-105 | a shorthand reads the host variable, or nothing |
| `MountSpec.ParseMountString` | internal/devcontainer/spec/mount.go:86-125 | per field the last value wins, aliases included; the missing field is reported; the other parts are options in order |
| `MountSpec.MountMeans` | internal/devcontainer/spec/mount.go:86-125 | in terms of the comma-separated parts: each field is given by the last part with one of its names, the first field missing is the error, and every part that names no field is an option, in order |
| `MountSpec.TrimMeans` | internal/devcontainer/spec/mount.go:91 | trimming removes white space at both ends, and nothing else |
| `MountSpec.TrimPadded` | internal/devcontainer/spec/mount.go:91 | and all of it |
| `MountSpec.PrintMount` | internal/devcontainer/spec/mount.go:43-49 | the printed form is the three fields and the options joined by commas |
| `MountSpec.ParsePrintParse` | internal/devcontainer/spec/mount.go:43-125 | for every string that parses, printing and parsing again gives the same mount |
| `MountSpec.RoundTripIff` | internal/devcontainer/spec/mount.go:43-125 | the mounts that survive printing and parsing are exactly those with plain fields and options |
| `MountSpec.MountEntryToComposeVolume` | internal/devcontainer/compose.go:360-389 | the volume of a mount string, options applied in order |
| `MountSpec.VolumeMeans` | internal/devcontainer/compose.go:366-386 | kind and paths of the mount; read-only exactly if an option says so; the last consistency and propagation given, if any |
| `MountSpec.FormatConvertsIff` | internal/mounts/mounts.go:57-63 | a formatted bind mount becomes the volume with the same paths and read-only flag if and only if the paths are comma-free, trimmed and not empty |
| `Metadata.UniqueStrings` | internal/devcontainer/up.go:547-558 | each element at its first occurrence |
| `Metadata.FirstOccurrencesFacts` | internal/devcontainer/up.go:545-558 | nothing repeated, nothing lost, in the order of first appearance |
| `Metadata.ExtractImageMetadata` | internal/devcontainer/up.go:423-502 | of the entries with an ID: a flag is set exactly if one sets it; the mounts are the items of their arrays and each stage's commands their non-empty commands, by entry and position; the last entrypoint and the last value of each variable win; capabilities and security options once each in order of first appearance |
| `Metadata.DecodeMeans` | internal/devcontainer/up.go:423-443 | each field of an entry is the member of that name in the label's object, absent and null ones being empty |
| `Metadata.DecodableIff` | internal/devcontainer/up.go:432-443 | an object is decoded exactly if its members have the types of the entry's fields |
| `Metadata.EntriesMean` | internal/devcontainer/up.go:432-443 | the entries are the objects of the label in order, or none if one of them cannot be decoded |
| `Metadata.OtherLabels` | internal/devcontainer/up.go:428-443 | a label that is a single object has one entry, and any other label none |
| `Metadata.BuildFeatureMetadata` | internal/devcontainer/features/dockerfile.go:162-215 | every object written holds exactly the non-zero properties of its feature, and decodes to it |
| `Metadata.MembersWritten` | internal/devcontainer/features/dockerfile.go:162-215 | the object of a feature, member by member: ID, version and name always, the others exactly when they are not empty, and nothing else |
| `Metadata.WriteReadBack` | internal/devcontainer/features/dockerfile.go:162-215 | reading what was written is the direct fold over the features in install order |
| `Metadata.AllNamed` | internal/devcontainer/up.go:444-447 | no feature is skipped when all have an ID |
| `Metadata.SubstituteInPlace` | internal/devcontainer/up.go:368-398 | every text in the mounts, the entrypoint, the commands of the five stages and the variables is substituted, everything else kept |

## Left out

- Text: strings are sequences of Unicode code points, so file and environment text is taken to be valid UTF-8; `strings.ToLower` is modelled for the ASCII letters.
- JSON: values are a datatype; parsing and printing JSON text, the raw bytes of options, and Go's case-insensitive matching of property names are not modelled. Label entries are maps over an enumeration of property names.
- Hashing: SHA-256, its hexadecimal form and the image slug; the facts are about the hashed bytes. The JSON encoding of options is a parameter of the hash.
- Fetching: downloads, the feature cache and the manifest; what the registry holds during one build is a function of the reference. The image build itself and writing the lockfile to disk are not modelled.
- FeatureBuild.PrepareBuild: takes the digest or name of the base image as a parameter, and leaves out the look-up of an already built image.
- Vars.FolderValues: takes the absolute host folder and its 32-digit identifier as given.
- Vars.Config.SubstituteAll: arrays of mounts and arguments are sequence fields that are reassigned, so sharing of Go slices between configurations is not modelled.
- Metadata.SubstituteInPlace: works on a value and returns it, so sharing of slices is not modelled here either.
- Teardown.ComposeDown: the test for an already removed container looks for words in an error text; here it is an error kind that the daemon reports only for a missing container.
- UpNative.CreateNew: the mounts of the new container are arbitrary; create arguments, environment, entrypoint, user, the metadata and config-file labels, and labels passed in `runArgs` are not modelled.
- UpNative.Up: compares the state at its start and end; nothing else acts on the daemon in between. Building the metadata label, which fails only if JSON encoding fails, is not modelled.
- Runs.AtMostOneContainer: other programs may start, stop and remove containers and create unlabelled ones between the calls, but they do not create containers with dcx's label.
- DockerModel.Daemon.ContainerStart: a failing operation has no effect; a reliable daemon also keeps the main process of a started container running.
- DockerModel.Daemon.ImageRemove: an image has one name here. Inspecting a container gives the name it was created from, and removing an image under one name leaves its other names alone; in Docker, an image ID and its tags are names of one image.
- Container IDs are numbers handed out once; a paused container counts as one that is not running.
- `UpCompose`: its lifecycle rules differ (postCreate runs for restarted containers too) and recreation is decided inside the compose program.
- `spec.Merge` and Viper loading: field-by-field copying, and merge state inside a library.
- Feature dependencies beyond `installsAfter`: the code does not add edges for `dependsOn` and refuses an override order, and the model does the same.
- The proxy, SSH agent, Colima and terminal handling, `ps` output, logging, path clean-up and `~` expansion of mounts: wrappers and easy members beside the ones above.
