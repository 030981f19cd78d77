# Native dependent binaries resolution, modelled in Dafny

Gradle's native plugins can answer the question "which binaries of the build
depend on this one?". `NativeDependentBinariesResolutionStrategy` answers it in
three steps.

1. It builds a fresh *state* from every project that applies the component
   model plugin. The state holds two insertion-ordered maps:
   - `binaries` maps a string key to a native binary;
   - `dependencies` maps the same keys to that binary's list of linked libraries.
2. It scans `dependencies` for the lists that contain the target. These are
   the *direct dependents*, taken in map iteration order.
3. It builds a tree of resolved results, one node per dependent. Each node
   copies the dependent's identifier and buildable flag, has its test-suite
   flag set to false, and holds the dependent's own dependents, built the
   same way.

A target that is not a native binary gets no result (`null`).

The model is split into modules that follow that structure:

- `Wrappers`: `Option`, used for the null project path and the null result.
- `Sequences`: small slice facts shared by the loops.
- `LinkedMaps`: a `LinkedHashMap<String, V>` as a key sequence plus a map.
  `Put` appends a new key and leaves a known key in place.
- `StateKeys`: the three-argument `stateKeyOf(project, component, binary)`
  as `StateKeyOf`, and what its key format does and does not distinguish.
- `NativeBinaries`: the data model (identifier, binary, component, project,
  state), the one-argument `stateKeyOf(binary)` as `IdKey` and `KeyOf`, and
  `allBinariesOf`. It also holds `buildState`, as imperative
  methods with loop invariants, proved equal to a specification function
  `StateOf` whose properties are proved as lemmas.
- `DependentsResolution`: `getDependents`, `buildResolvedResult` and
  `resolveDependents`. Each method is proved equal to a specification
  function (`Dependents`, `Resolve`). Lemmas state what those functions
  mean.
- `ResolutionExamples`: three examples.
  - A chain: a target A, a binary B that links A, and a binary C that links
    B. The result for A is B holding C, which holds nothing.
  - The chain's termination rank.
  - A two-binary cycle, which admits no termination rank.

The recursion of `buildResolvedResult` has no guard against a cycle of
dependencies. The model therefore requires a ghost `rank` that strictly
decreases from a binary to each of its dependents, over every binary reachable
from the target (`AcyclicFrom`). Such a rank exists when no cycle is reachable
from the target. When a cycle is reachable, `buildResolvedResult` calls itself
around it until the Java stack overflows.

Keys are not injective in general. A `:` inside a component or variant name
lets two different identities share a key. A null project path, an empty one
and the root path `:` all give the same prefix. Keys are meant to identify one
binary, but the format does not guarantee it. The model follows the code: injectivity is proved only
for names without a separator, and only up to the normalised project prefix.
Two lemmas exhibit the collisions.

## Model

| member | source | states |
|---|---|---|
| StateKeys.StateKeyInjective | subprojects/platform-native/src/main/java/org/gradle/nativeplatform/internal/NativeDependentBinariesResolutionStrategy.java:118-127 | for component and variant names without `:`, two keys are equal exactly when the project prefixes, the component names and the variant names are equal |
| StateKeys.RootPathKey | subprojects/platform-native/src/main/java/org/gradle/nativeplatform/internal/NativeDependentBinariesResolutionStrategy.java:118-127 | a null, an empty and the `:` project path all give the key `::component:variant` |
| StateKeys.SeparatorInComponentCollides | subprojects/platform-native/src/main/java/org/gradle/nativeplatform/internal/NativeDependentBinariesResolutionStrategy.java:125 | a `:` in a component name lets two different identities share one key |
| NativeBinaries.IdKeyInjective | subprojects/platform-native/src/main/java/org/gradle/nativeplatform/internal/NativeDependentBinariesResolutionStrategy.java:113-116 | `stateKeyOf(binary)` keys a binary by its identifier: for names without a separator, two identifiers share a key exactly when their project prefixes, library names and variants agree |
| StateKeys.ProjectPrefix | subprojects/platform-native/src/main/java/org/gradle/nativeplatform/internal/NativeDependentBinariesResolutionStrategy.java:119-124 | the prefix is never empty; a null or empty path contributes the bare separator, and any other path contributes itself |
| LinkedMaps.InsertionOrderFollowsFirstOccurrence | subprojects/platform-native/src/main/java/org/gradle/nativeplatform/internal/NativeDependentBinariesResolutionStrategy.java:69-70 | a linked map built by inserting keys in turn iterates over each key once, in the order of that key's first insertion |
| LinkedMaps.LinkedMap.Put | subprojects/platform-native/src/main/java/org/gradle/nativeplatform/internal/NativeDependentBinariesResolutionStrategy.java:82 | after `put(k, v)` the key `k` holds `v`; every other key keeps its value; no key is added but `k`; a key already present keeps its place in the iteration order, and a new one goes to the end |
| NativeBinaries.AllBinariesOf | subprojects/platform-native/src/main/java/org/gradle/nativeplatform/internal/NativeDependentBinariesResolutionStrategy.java:103-111 | returns the binaries of the components, component after component, each component's binaries in order |
| NativeBinaries.BinariesOfMembers | subprojects/platform-native/src/main/java/org/gradle/nativeplatform/internal/NativeDependentBinariesResolutionStrategy.java:103-111 | a binary is returned exactly when some component holds it |
| NativeBinaries.ScannedBinariesMembers | subprojects/platform-native/src/main/java/org/gradle/nativeplatform/internal/NativeDependentBinariesResolutionStrategy.java:76-86 | a binary is visited by the first loop exactly when a project that applies the component model plugin holds it |
| NativeBinaries.RegisterBinaries | subprojects/platform-native/src/main/java/org/gradle/nativeplatform/internal/NativeDependentBinariesResolutionStrategy.java:76-86 | the first loop of `buildState` yields the registry of the scanned binaries, project by project in order |
| NativeBinaries.PutBinaries | subprojects/platform-native/src/main/java/org/gradle/nativeplatform/internal/NativeDependentBinariesResolutionStrategy.java:81-83 | the inner loop puts each binary of a project under its key, in turn, continuing the registry built so far |
| NativeBinaries.Register | subprojects/platform-native/src/main/java/org/gradle/nativeplatform/internal/NativeDependentBinariesResolutionStrategy.java:81-83 | every registered binary sits under its own key |
| NativeBinaries.RegisterKeys | subprojects/platform-native/src/main/java/org/gradle/nativeplatform/internal/NativeDependentBinariesResolutionStrategy.java:81-83 | a key is registered exactly when some scanned binary has that key |
| NativeBinaries.RegisterLastWins | subprojects/platform-native/src/main/java/org/gradle/nativeplatform/internal/NativeDependentBinariesResolutionStrategy.java:82 | when several scanned binaries share a key, the key holds the last of them |
| NativeBinaries.RegisterHoldsLast | subprojects/platform-native/src/main/java/org/gradle/nativeplatform/internal/NativeDependentBinariesResolutionStrategy.java:82 | the binary a registered key holds is the last visited binary with that key |
| NativeBinaries.RegisteredBinaries | subprojects/platform-native/src/main/java/org/gradle/nativeplatform/internal/NativeDependentBinariesResolutionStrategy.java:81-83 | a visited binary stays registered exactly when no later visited binary has its key; the others are overwritten |
| NativeBinaries.RegisterFirstInsertionOrder | subprojects/platform-native/src/main/java/org/gradle/nativeplatform/internal/NativeDependentBinariesResolutionStrategy.java:69-83 | the registry iterates over the distinct keys in the order of their first insertion, so a reused key keeps its first position |
| NativeBinaries.IndexDependencies | subprojects/platform-native/src/main/java/org/gradle/nativeplatform/internal/NativeDependentBinariesResolutionStrategy.java:88-98 | the second loop of `buildState` gives `dependencies` exactly the keys of `binaries`, in the same order, each mapped to that binary's dependency list in declaration order |
| NativeBinaries.AppendDependencies | subprojects/platform-native/src/main/java/org/gradle/nativeplatform/internal/NativeDependentBinariesResolutionStrategy.java:94-97 | appending the libraries one by one extends the key's list by all of them, in order, and changes no other key or the key order |
| NativeBinaries.StateOf | subprojects/platform-native/src/main/java/org/gradle/nativeplatform/internal/NativeDependentBinariesResolutionStrategy.java:73-101 | the built state is well formed: every binary under its own key, and `dependencies` with the same keys and order as `binaries` |
| NativeBinaries.BuildState | subprojects/platform-native/src/main/java/org/gradle/nativeplatform/internal/NativeDependentBinariesResolutionStrategy.java:73-101 | `buildState` returns the registry of the scanned binaries and its dependency index, whatever `includeTestSuites` is |
| DependentsResolution.DependentsSpec | subprojects/platform-native/src/main/java/org/gradle/nativeplatform/internal/NativeDependentBinariesResolutionStrategy.java:139-147 | the dependents are exactly the registered binaries whose list contains the target, in strictly increasing key position (so each at most once), and never more than the number of keys |
| DependentsResolution.DependentsComplete | subprojects/platform-native/src/main/java/org/gradle/nativeplatform/internal/NativeDependentBinariesResolutionStrategy.java:141-144 | every registered binary whose list contains the target is among its dependents |
| DependentsResolution.DependentsOrdered | subprojects/platform-native/src/main/java/org/gradle/nativeplatform/internal/NativeDependentBinariesResolutionStrategy.java:141-144 | the dependents keep the iteration order of `dependencies` |
| DependentsResolution.DependentsInOrder | subprojects/platform-native/src/main/java/org/gradle/nativeplatform/internal/NativeDependentBinariesResolutionStrategy.java:141-144 | a scan of any distinct key prefix yields dependents in strictly increasing key position |
| DependentsResolution.DependentsInSingle | subprojects/platform-native/src/main/java/org/gradle/nativeplatform/internal/NativeDependentBinariesResolutionStrategy.java:139-147 | when only one list names the target, the dependents are that key's binary alone |
| DependentsResolution.DependentsInNone | subprojects/platform-native/src/main/java/org/gradle/nativeplatform/internal/NativeDependentBinariesResolutionStrategy.java:139-147 | when no list names the target, there are no dependents |
| DependentsResolution.GetDependents | subprojects/platform-native/src/main/java/org/gradle/nativeplatform/internal/NativeDependentBinariesResolutionStrategy.java:139-147 | the scan loop of `getDependents` returns the dependents of the target |
| DependentsResolution.DependentsRankLower | subprojects/platform-native/src/main/java/org/gradle/nativeplatform/internal/NativeDependentBinariesResolutionStrategy.java:131-133 | every direct dependent of a ranked target is ranked strictly lower, so the recursion terminates |
| DependentsResolution.ResolveMirrorsReverseEdges | subprojects/platform-native/src/main/java/org/gradle/nativeplatform/internal/NativeDependentBinariesResolutionStrategy.java:129-137 | at every depth, the children of a node are exactly the registered binaries that depend on it, in iteration order, with flags copied and the test-suite flag false |
| DependentsResolution.SharedDependentUnderEachPath | subprojects/platform-native/src/main/java/org/gradle/nativeplatform/internal/NativeDependentBinariesResolutionStrategy.java:131-135 | a binary that depends on two direct dependents of the target appears below each of them: nodes reached along several paths are repeated |
| DependentsResolution.ResolveEmptyIffNoDependents | subprojects/platform-native/src/main/java/org/gradle/nativeplatform/internal/NativeDependentBinariesResolutionStrategy.java:129-137 | the result is empty exactly when no registered binary depends on the target |
| DependentsResolution.BuildResolvedResult | subprojects/platform-native/src/main/java/org/gradle/nativeplatform/internal/NativeDependentBinariesResolutionStrategy.java:129-137 | the recursive method returns the tree of dependents of the target |
| DependentsResolution.ResolveDependents | subprojects/platform-native/src/main/java/org/gradle/nativeplatform/internal/NativeDependentBinariesResolutionStrategy.java:61-66 | no result exactly when the target is not a native binary; otherwise the tree of dependents over the state built from the projects |
| ResolutionExamples.SingleDependentResolves | subprojects/platform-native/src/main/java/org/gradle/nativeplatform/internal/NativeDependentBinariesResolutionStrategy.java:131-135 | a target named only in one binary's list has a single result: that binary, with its flags copied, holding its own results |
| ResolutionExamples.ChainResolvesTransitively | subprojects/platform-native/src/main/java/org/gradle/nativeplatform/internal/NativeDependentBinariesResolutionStrategy.java:131-135 | for a target A, a binary B that alone links A, and a binary C that alone links B and that nothing links, the result is B holding C, which holds nothing |
| ResolutionExamples.ChainAcyclic | subprojects/platform-native/src/main/java/org/gradle/nativeplatform/internal/NativeDependentBinariesResolutionStrategy.java:129-137 | the chain registry is well formed and ranks 2, 1, 0 witness its termination |
| ResolutionExamples.CycleHasNoRank | subprojects/platform-native/src/main/java/org/gradle/nativeplatform/internal/NativeDependentBinariesResolutionStrategy.java:129-137 | two binaries that link each other admit no termination rank, so the precondition excludes this input, on which `buildResolvedResult` would call itself until the Java stack overflows |

## Left out

- Project registry, plugin container and model registry calls (`getAllProjects`, `hasPlugin`, `resolveProjectModel`, `realize`): these are calls into Gradle. Projects arrive as values, and a project records whether it applies the component model plugin.
- `Ordering.usingToString()` sorting of projects: it depends on `Project.toString`, which is not part of this model. The projects are taken as already sorted.
- `withType` filtering and the unchecked cast at line 96: components and binaries arrive already typed, and dependency lists hold identifiers.
- The constructor's `checkNotNull` checks: the registry and the model resolver are not modelled.
- `includeTestSuites`: the source ignores it (line 84), so it is a parameter with no effect.
- `List.contains` uses the binaries' `equals`: it is modelled as equality of identifiers.
- The `null` that `binaries.get` would return for a key missing from `binaries` cannot arise, because `dependencies` has exactly the keys of `binaries`.
- DependentsResolution.BuildResolvedResult: requires a termination rank (no cycle reachable from the target). On a cycle `buildResolvedResult` calls itself until the Java stack overflows, which the model does not describe.
- DependentsResolution.ResolveDependents: requires the same termination rank for a native target.
- The test-suite flag of a node is always false here, as in the source. Test suites are never registered.
