# detekt IntelliJ plugin — a Dafny model of its core

This project models the decision logic of the detekt plugin for IntelliJ
IDEA: how the plugin resolves a detekt plugin given as a Maven coordinate into
a tree of dependencies, which of those dependencies it copies into the
project's `.idea/detektPlugins` folder and which it leaves to the host, how the
check boxes of the dependency dialogs propagate, how the Maven search dialog
moves between its states, how the settings are stored, migrated and validated,
and how findings of a detekt run become editor annotations and entries of the
problems view.

The model is written module by module after the source files:

- **Maven coordinates.**
  - `MavenRepositoryPaths` models `CoordToRelativePath.kt` and `ExtractCoordinate.kt`.
  - `ProvidedDependencies` models the dependencies the host already ships.
  - `MavenArtifactFetcher` models query parsing, version ordering, deduplication and the retry and fallback policies of the search.
  - `MavenDependencyResolver` models the mapping of a resolved tree and its flattening.
- **Plugin reconciliation.** `PluginDependencyService` models the allowed-node walk, the reconciliation of the downloaded state and the cleanup and copy plans.
  - The reconciliation state is a class whose methods update it in place, as the service's loop does.
- **Dialogs and lists.**
  - `DependencySelectionHandler` models check propagation over an array of node states.
  - `DependencyExclusionEditor` models the tree the exclusion editor builds and reads back.
  - `MavenSearchDialog` models the search dialog as a class over a value-level view of its widgets.
  - `FilesListPanel` and `PluginsListPanel` model the list models and their panels.
- **Settings.**
  - `SettingsState`, `DetektSettingsMigration` and `DetektPluginSettings` model the current settings and their migration.
  - `IdeaConfigStorage` and `IdeaConfigurationForm` model the settings page.
  - `LegacyConfigStorage`, `LegacyConfigurationForm`, `DetektConfigStorageExtensions`, `ProjectUtil` and `AutoCorrectConfig` model the older settings code.
- **Analysis.**
  - `ConfiguredService` models validation and the run specification.
  - `DetektAnnotator`, `DetektProblem`, `FindingsManager` and `RunAnalysisAction` model how findings are shown and stored.
  - `SimpleAppendable` and `DownloadFile` model two small utilities.
- **Library.** `Wrappers`, `Strings`, `Ordering`, `Distinct`, `ListEdits`, `FileSystem` and `DetektApi` hold the shared vocabulary.
  - This covers Kotlin's string functions, `distinctBy`, sorting by a comparator, list edits, a finite model of the disk, and detekt's finding types.

Platform conventions are fixed to Unix: the name separator is `/` and the
path-list separator is `:`. The disk is a pair of sets (files, directories);
clocks, the network, the Maven resolver, the host's file chooser and dialogs,
and detekt's analysis enter as parameters.

## Model

| member | source | states |
|---|---|---|
| ProvidedDependencies.GetExclusions | src/main/kotlin/io/gitlab/arturbosch/detekt/idea/util/ProvidedDependencies.kt:22-23 | one `group:*` pattern per provided group, in order, then the kotlinx coroutines pattern; four entries |
| ProvidedDependencies.CoroutinesRule | src/main/kotlin/io/gitlab/arturbosch/detekt/idea/util/ProvidedDependencies.kt:15-17 | an `org.jetbrains.kotlinx` artifact is provided iff its name starts with `kotlinx-coroutines-` |
| ProvidedDependencies.GroupRule | src/main/kotlin/io/gitlab/arturbosch/detekt/idea/util/ProvidedDependencies.kt:11-18 | for any other group, provided iff the group is one of the three provided groups, whatever the artifact |
| ProvidedDependencies.UnknownGroupsNotProvided | src/test/kotlin/io/gitlab/arturbosch/detekt/idea/util/ProvidedDependenciesTest.kt:31-35 | `com.example`, `org.junit.jupiter` and a non-coroutines kotlinx artifact are not provided |
| ProvidedDependencies.GroupPrefix | src/main/kotlin/io/gitlab/arturbosch/detekt/idea/util/ProvidedDependencies.kt:22-23 | a `g:a` coordinate matching the prefix `G:` of a `G:*` pattern has group exactly `G` |
| ProvidedDependencies.ExclusionsCoverProvided | src/main/kotlin/io/gitlab/arturbosch/detekt/idea/util/ProvidedDependencies.kt:14-23 | a dependency is provided iff some exclusion pattern of `getExclusions` matches its coordinate |
| MavenRepositoryPaths.CoordToRelativePath | src/main/kotlin/io/gitlab/arturbosch/detekt/idea/util/CoordToRelativePath.kt:18-26 | the path always ends in `/` + file name; fewer than three coordinate parts give `unknown/` + file name |
| MavenRepositoryPaths.CoordToRelativePathLayout | src/main/kotlin/io/gitlab/arturbosch/detekt/idea/util/CoordToRelativePath.kt:20-23 | `g:a:v` gives the group with dots turned into `/`, then artifact, version and file name |
| MavenRepositoryPaths.CoordToRelativePathIgnoresExtraParts | src/main/kotlin/io/gitlab/arturbosch/detekt/idea/util/CoordToRelativePath.kt:20-23 | parts after the third leave the path unchanged |
| MavenRepositoryPaths.CoordinateFromRepositoryPath | src/main/kotlin/io/gitlab/arturbosch/detekt/idea/util/ExtractCoordinate.kt:28-36 | no coordinate iff the repository-relative path has fewer than four segments; otherwise group segments joined by dots, artifact and version |
| MavenRepositoryPaths.ExtractCoordinate | src/main/kotlin/io/gitlab/arturbosch/detekt/idea/util/ExtractCoordinate.kt:21-40 | the main artifact's own `g:a:v` when `isMain`; `unknown:<name>:unknown` without a `/repository/` marker or with too few segments |
| MavenRepositoryPaths.ExtractUsesTextAfterLastMarker | src/main/kotlin/io/gitlab/arturbosch/detekt/idea/util/ExtractCoordinate.kt:24-28 | only the text after the last `/repository/` decides the coordinate |
| MavenRepositoryPaths.CoordinateFromSegments | src/main/kotlin/io/gitlab/arturbosch/detekt/idea/util/ExtractCoordinate.kt:29-36 | segments `g1/../gk/a/v/file` give `g1. .. .gk:a:v` |
| MavenRepositoryPaths.ExtractInvertsRelativePath | src/main/kotlin/io/gitlab/arturbosch/detekt/idea/util/ExtractCoordinate.kt:21-40 | extracting the coordinate of a jar stored at `coordToRelativePath(g:a:v, file)` gives back `g:a:v` |
| MavenArtifactFetcher.MavenArtifact.LatestVersion | src/main/kotlin/io/gitlab/arturbosch/detekt/idea/config/ui/MavenArtifactFetcher.kt:56-57 | none iff there are no versions, otherwise the first version |
| MavenArtifactFetcher.CreateArtifactKey | src/main/kotlin/io/gitlab/arturbosch/detekt/idea/config/ui/MavenArtifactFetcher.kt:376 | the key `g:a` splits back into group and artifact when neither holds `:` |
| MavenArtifactFetcher.TrimmedParts | src/main/kotlin/io/gitlab/arturbosch/detekt/idea/config/ui/MavenArtifactFetcher.kt:420 | the query split on `:` with every part trimmed, one per part |
| MavenArtifactFetcher.ParseGav | src/main/kotlin/io/gitlab/arturbosch/detekt/idea/config/ui/MavenArtifactFetcher.kt:419-430 | none iff fewer than two trimmed parts or an empty part; otherwise parts 0 and 1, and the last part as version when there are at least three |
| MavenArtifactFetcher.TrimmedPartsOfJoin | src/main/kotlin/io/gitlab/arturbosch/detekt/idea/config/ui/MavenArtifactFetcher.kt:420 | clean parts joined by `:` are split and trimmed back into the same parts |
| MavenArtifactFetcher.ParseGavTwoParts | src/main/kotlin/io/gitlab/arturbosch/detekt/idea/config/ui/MavenArtifactFetcher.kt:423-427 | `g:a` parses to group g, artifact a and no version |
| MavenArtifactFetcher.ParseGavThreeParts | src/main/kotlin/io/gitlab/arturbosch/detekt/idea/config/ui/MavenArtifactFetcher.kt:423-427 | `g:a:v` parses to g, a and version v |
| MavenArtifactFetcher.ParseGavFourParts | src/main/kotlin/io/gitlab/arturbosch/detekt/idea/config/ui/MavenArtifactFetcher.kt:423-427 | `g:a:packaging:v` takes the last part as the version |
| MavenArtifactFetcher.ParseGavRejects | src/main/kotlin/io/gitlab/arturbosch/detekt/idea/config/ui/MavenArtifactFetcher.kt:420-421 | the empty query, a lone group, an empty middle part and a trailing `:` parse to nothing |
| MavenArtifactFetcher.SortVersionsDescending | src/main/kotlin/io/gitlab/arturbosch/detekt/idea/config/ui/MavenArtifactFetcher.kt:384-385 | a permutation of the versions that is non-increasing under the comparator |
| MavenArtifactFetcher.FirstKeys | src/main/kotlin/io/gitlab/arturbosch/detekt/idea/config/ui/MavenArtifactFetcher.kt:398-406 | the distinct `g:a` keys of the hits in first-occurrence order; every hit's key is among them |
| MavenArtifactFetcher.DeduplicateByVersion | src/main/kotlin/io/gitlab/arturbosch/detekt/idea/config/ui/MavenArtifactFetcher.kt:395-417 | one hit per key, in first-occurrence key order, each an input hit whose version is at least every same-key version, the earliest such on ties |
| MavenArtifactFetcher.KeepBest | src/main/kotlin/io/gitlab/arturbosch/detekt/idea/config/ui/MavenArtifactFetcher.kt:399-404 | one hit: the key order and the kept best hit per key advance to the hits so far |
| MavenArtifactFetcher.KeepBestNewKey | src/main/kotlin/io/gitlab/arturbosch/detekt/idea/config/ui/MavenArtifactFetcher.kt:401-404 | a hit with a new key enters the map and keeps the loop invariant |
| MavenArtifactFetcher.KeepBestHigher | src/main/kotlin/io/gitlab/arturbosch/detekt/idea/config/ui/MavenArtifactFetcher.kt:401-404 | a strictly higher version replaces the kept hit and keeps the loop invariant |
| MavenArtifactFetcher.KeepBestLower | src/main/kotlin/io/gitlab/arturbosch/detekt/idea/config/ui/MavenArtifactFetcher.kt:401-404 | a version that is not higher leaves the map and the invariant as they were |
| MavenArtifactFetcher.DeduplicatedResult | src/main/kotlin/io/gitlab/arturbosch/detekt/idea/config/ui/MavenArtifactFetcher.kt:416 | the map's values in key order are one maximal, earliest hit per key |
| MavenArtifactFetcher.RetryOnceOnTimeout | src/main/kotlin/io/gitlab/arturbosch/detekt/idea/config/ui/MavenArtifactFetcher.kt:267-272 | one attempt unless the first times out, then exactly one more whose outcome is returned; a timeout escapes only when both time out |
| MavenArtifactFetcher.RunCallablesUsingFallback | src/main/kotlin/io/gitlab/arturbosch/detekt/idea/config/ui/MavenArtifactFetcher.kt:324-368 | one result per callable: its value when it returned, `fallback(i)` on a timeout or failure |
| MavenArtifactFetcher.FallbackArtifact | src/main/kotlin/io/gitlab/arturbosch/detekt/idea/config/ui/MavenArtifactFetcher.kt:205-206 | the hit with its own version as the only, hence latest, version |
| MavenArtifactFetcher.FallbackArtifacts | src/main/kotlin/io/gitlab/arturbosch/detekt/idea/config/ui/MavenArtifactFetcher.kt:200-203 | every hit turned into its fallback artifact, position by position |
| MavenArtifactFetcher.FetchVersions | src/main/kotlin/io/gitlab/arturbosch/detekt/idea/config/ui/MavenArtifactFetcher.kt:234-263 | the fetched versions sorted latest first when a fetch returned a list, no versions when it returned none, timed out twice or failed |
| MavenArtifactFetcher.WithVersions | src/main/kotlin/io/gitlab/arturbosch/detekt/idea/config/ui/MavenArtifactFetcher.kt:214-219 | the fetched versions, or the hit's own version when none were fetched |
| MavenArtifactFetcher.FetchVersionsInParallel | src/main/kotlin/io/gitlab/arturbosch/detekt/idea/config/ui/MavenArtifactFetcher.kt:208-232 | one artifact per hit with its group and artifact and always a latest version: the fetched list when non-empty, the hit's own version otherwise |
| MavenArtifactFetcher.ParallelVersionsLatestFirst | src/main/kotlin/io/gitlab/arturbosch/detekt/idea/config/ui/MavenArtifactFetcher.kt:208-232 | when each fetch returns its versions newest first, as `fetchVersions` sorts them, every artifact lists its versions newest first, fallbacks included |
| MavenDependencyResolver.FileOf | src/main/kotlin/io/gitlab/arturbosch/detekt/idea/util/MavenDependencyResolver.kt:117 | the artifact's own file when it has one, otherwise the resolved file of its coordinate |
| MavenDependencyResolver.CreateLeafNode | src/main/kotlin/io/gitlab/arturbosch/detekt/idea/util/MavenDependencyResolver.kt:136-155 | a node without children whose `isProvided` is `ProvidedDependencies.isProvided(g, a)`, other fields as given |
| MavenDependencyResolver.MapToResolvedNode | src/main/kotlin/io/gitlab/arturbosch/detekt/idea/util/MavenDependencyResolver.kt:97-133 | coordinate `g:a:v`; a coordinate already on the path gives a rejected leaf; otherwise rejection copied and children mapped one for one, in order |
| MavenDependencyResolver.Resolve | src/main/kotlin/io/gitlab/arturbosch/detekt/idea/util/MavenDependencyResolver.kt:50-90 | none for fewer than three coordinate parts, a blank group, artifact or version, or no tree; otherwise the mapped tree of the root resolved for parts 0 to 2 |
| MavenDependencyResolver.MappedTreeIsCut | src/main/kotlin/io/gitlab/arturbosch/detekt/idea/util/MavenDependencyResolver.kt:105-130 | down every path of the mapped tree, a repeated coordinate is a rejected leaf, so no coordinate has children twice on one path |
| MavenDependencyResolver.ResolveFailsOnShortCoordinate | src/main/kotlin/io/gitlab/arturbosch/detekt/idea/util/MavenDependencyResolver.kt:57-61 | a two-part coordinate resolves to nothing |
| MavenDependencyResolver.ResolveIgnoresExtraParts | src/main/kotlin/io/gitlab/arturbosch/detekt/idea/util/MavenDependencyResolver.kt:63-65 | a fourth part does not change the result; the version stays part 2 |
| MavenDependencyResolver.Flatten | src/main/kotlin/io/gitlab/arturbosch/detekt/idea/util/MavenDependencyResolver.kt:162-166 | empty iff the node's coordinate is already on the path; otherwise the node first; no entry has a coordinate on the path |
| MavenDependencyResolver.FlattenChildren | src/main/kotlin/io/gitlab/arturbosch/detekt/idea/util/MavenDependencyResolver.kt:165 | the children's flattenings, none with a coordinate on the path |
| MavenDependencyResolver.FlattenDiamond | src/test/kotlin/io/gitlab/arturbosch/detekt/idea/util/MavenDependencyResolverTest.kt:297-354 | a diamond of four coordinates flattens to five entries, the shared node twice |
| PluginDependencyService.GetPluginFolder | src/main/kotlin/io/gitlab/arturbosch/detekt/idea/util/PluginDependencyService.kt:48-51 | `<base>/.idea/detektPlugins`, or the relative `.idea/detektPlugins` without a base path |
| PluginDependencyService.GetDownloadedFile | src/main/kotlin/io/gitlab/arturbosch/detekt/idea/util/PluginDependencyService.kt:56 | `downloaded.json` directly inside the plugin folder |
| PluginDependencyService.PluginFolderSegments | src/main/kotlin/io/gitlab/arturbosch/detekt/idea/util/PluginDependencyService.kt:48-51 | the folder's path segments are the base path's, then `.idea` and `detektPlugins` |
| PluginDependencyService.Collected | src/main/kotlin/io/gitlab/arturbosch/detekt/idea/util/PluginDependencyService.kt:189-205 | what `traverse` adds: nothing for a coordinate already on the path or a provided or excluded node; otherwise the node first |
| PluginDependencyService.CollectedAdmitted | src/main/kotlin/io/gitlab/arturbosch/detekt/idea/util/PluginDependencyService.kt:190-201 | every collected node is neither provided nor excluded by coordinate or G:A, and not on the path |
| PluginDependencyService.Traverse | src/main/kotlin/io/gitlab/arturbosch/detekt/idea/util/PluginDependencyService.kt:189-205 | the recursive walk appends exactly the collected nodes to the result list |
| PluginDependencyService.TraverseChild | src/main/kotlin/io/gitlab/arturbosch/detekt/idea/util/PluginDependencyService.kt:205 | one child: the result list grows by exactly what the walk collects below that child |
| PluginDependencyService.CollectAllowedNodes | src/main/kotlin/io/gitlab/arturbosch/detekt/idea/util/PluginDependencyService.kt:182-210 | the collected nodes, distinct by coordinate |
| PluginDependencyService.CollectedIffReached | src/main/kotlin/io/gitlab/arturbosch/detekt/idea/util/PluginDependencyService.kt:189-205 | a node is collected iff an admitted path without repeated coordinates reaches it |
| PluginDependencyService.CollectedReached | src/main/kotlin/io/gitlab/arturbosch/detekt/idea/util/PluginDependencyService.kt:203-205 | every collected node is reached along admitted ancestors |
| PluginDependencyService.ReachedCollected | src/main/kotlin/io/gitlab/arturbosch/detekt/idea/util/PluginDependencyService.kt:203-205 | every node reached along admitted ancestors is collected |
| PluginDependencyService.AllowedNodesSound | src/main/kotlin/io/gitlab/arturbosch/detekt/idea/util/PluginDependencyService.kt:195-203 | no returned node is provided or excluded; the root comes first when admitted, and nothing is returned when it is not |
| PluginDependencyService.AllowedNodesReached | src/main/kotlin/io/gitlab/arturbosch/detekt/idea/util/PluginDependencyService.kt:203-205 | each returned node is reached from the root through admitted ancestors |
| PluginDependencyService.AllowedNodesDistinct | src/main/kotlin/io/gitlab/arturbosch/detekt/idea/util/PluginDependencyService.kt:209 | at most one node per coordinate |
| PluginDependencyService.AllowedNodesKeepFirst | src/main/kotlin/io/gitlab/arturbosch/detekt/idea/util/PluginDependencyService.kt:209 | each node kept is the first in preorder with its coordinate |
| PluginDependencyService.AllowedNodesComplete | src/main/kotlin/io/gitlab/arturbosch/detekt/idea/util/PluginDependencyService.kt:203-209 | every node reached through admitted ancestors has its coordinate in the result |
| PluginDependencyService.GroupArtifactExclusion | src/main/kotlin/io/gitlab/arturbosch/detekt/idea/util/PluginDependencyService.kt:197-201 | a `g:a:v` node is excluded by its G:A pair, and then nothing below it is collected |
| PluginDependencyService.ArtifactOf | src/main/kotlin/io/gitlab/arturbosch/detekt/idea/util/PluginDependencyService.kt:149-154 | the artifact recorded for a node carries its coordinate and its file |
| PluginDependencyService.ArtifactsOf | src/main/kotlin/io/gitlab/arturbosch/detekt/idea/util/PluginDependencyService.kt:148-154 | the recorded artifacts, at most one per node |
| PluginDependencyService.ArtifactsOfMembership | src/main/kotlin/io/gitlab/arturbosch/detekt/idea/util/PluginDependencyService.kt:148-154 | an artifact is recorded iff some node with a file gives it |
| PluginDependencyService.ArtifactsOfPaths | src/main/kotlin/io/gitlab/arturbosch/detekt/idea/util/PluginDependencyService.kt:150 | every recorded relative path is non-empty |
| PluginDependencyService.PathSetExact | src/main/kotlin/io/gitlab/arturbosch/detekt/idea/util/PluginDependencyService.kt:153 | the allowed set holds exactly the recorded relative paths |
| PluginDependencyService.TransitiveCoords | src/main/kotlin/io/gitlab/arturbosch/detekt/idea/util/PluginDependencyService.kt:156-160 | the plugin's own coordinate is never transitive |
| PluginDependencyService.TransitiveCoordsMembership | src/main/kotlin/io/gitlab/arturbosch/detekt/idea/util/PluginDependencyService.kt:156-160 | the transitive coordinates are exactly the recorded coordinates other than the plugin's |
| PluginDependencyService.PluginPathNone | src/main/kotlin/io/gitlab/arturbosch/detekt/idea/util/PluginDependencyService.kt:156-157 | none iff no recorded artifact has the plugin's coordinate |
| PluginDependencyService.PluginPathIsLast | src/main/kotlin/io/gitlab/arturbosch/detekt/idea/util/PluginDependencyService.kt:156-157 | the plugin path is the relative path of the last recorded artifact with the plugin's coordinate |
| PluginDependencyService.PluginPathEmptyIff | src/main/kotlin/io/gitlab/arturbosch/detekt/idea/util/PluginDependencyService.kt:164-169 | the stored path is "" iff no allowed node with the plugin's coordinate had a file |
| PluginDependencyService.TransitiveUpdateKeys | src/main/kotlin/io/gitlab/arturbosch/detekt/idea/util/PluginDependencyService.kt:160 | the transitive-file map gains exactly the transitive coordinates as keys |
| PluginDependencyService.TransitiveUpdateValues | src/main/kotlin/io/gitlab/arturbosch/detekt/idea/util/PluginDependencyService.kt:160 | each new key maps to the relative path of the last artifact recorded for it |
| PluginDependencyService.RecordStep | src/main/kotlin/io/gitlab/arturbosch/detekt/idea/util/PluginDependencyService.kt:148-162 | one recorded artifact updates the allowed set, the transitive list, the plugin path and the map as one loop iteration does |
| PluginDependencyService.PluginStateOf | src/main/kotlin/io/gitlab/arturbosch/detekt/idea/util/PluginDependencyService.kt:141-173 | no state iff the plugin did not resolve; a state names the plugin and never lists it as its own dependency |
| PluginDependencyService.AllStates | src/main/kotlin/io/gitlab/arturbosch/detekt/idea/util/PluginDependencyService.kt:95-107 | at most one state per plugin, none listing itself as a transitive dependency |
| PluginDependencyService.AllStatesOfResolved | src/main/kotlin/io/gitlab/arturbosch/detekt/idea/util/PluginDependencyService.kt:95-107 | when every plugin resolves, one state per plugin, in order |
| PluginDependencyService.Reconciliation.Record | src/main/kotlin/io/gitlab/arturbosch/detekt/idea/util/PluginDependencyService.kt:149-161 | one artifact added to the list, its path to the allowed set, and its coordinate to the map unless it is the plugin's |
| PluginDependencyService.Reconciliation.RecordNode | src/main/kotlin/io/gitlab/arturbosch/detekt/idea/util/PluginDependencyService.kt:149-161 | one node: a node without a file changes nothing, a node with a file advances every collection to the artifacts of the nodes so far |
| PluginDependencyService.Reconciliation.RecordNodes | src/main/kotlin/io/gitlab/arturbosch/detekt/idea/util/PluginDependencyService.kt:148-162 | the loop records exactly the artifacts of the allowed nodes with a file |
| PluginDependencyService.Reconciliation.ResolvePlugin | src/main/kotlin/io/gitlab/arturbosch/detekt/idea/util/PluginDependencyService.kt:124-174 | a resolved plugin adds its artifacts, paths, transitive files and one state; an unresolved one adds nothing |
| PluginDependencyService.Reconciliation.ResolveAll | src/main/kotlin/io/gitlab/arturbosch/detekt/idea/util/PluginDependencyService.kt:82-107 | after the resolution loop the four collections equal their definitions over all plugins, and the allowed set is the recorded paths |
| PluginDependencyService.AfterCleanup | src/main/kotlin/io/gitlab/arturbosch/detekt/idea/util/PluginDependencyService.kt:212-236 | a jar is deleted iff its relative path is not allowed; other files are kept |
| PluginDependencyService.MissingOnly | src/main/kotlin/io/gitlab/arturbosch/detekt/idea/util/PluginDependencyService.kt:255-256 | only artifacts whose target is missing are copied |
| PluginDependencyService.CopyPlanSpec | src/main/kotlin/io/gitlab/arturbosch/detekt/idea/util/PluginDependencyService.kt:251-266 | each missing allowed path is copied exactly once, and only missing ones |
| PluginDependencyService.ReconciledFolder | src/main/kotlin/io/gitlab/arturbosch/detekt/idea/util/PluginDependencyService.kt:109-117 | after cleanup and copying the folder holds every allowed path, no jar that is not allowed, every non-jar it held, and nothing else new |
| DependencyExclusionEditor.MatchingIgnoresVersion | src/main/kotlin/io/gitlab/arturbosch/detekt/idea/config/ui/DependencyExclusionEditor.kt:137-138 | two versions of one artifact are excluded alike: matching uses group and artifact only |
| DependencyExclusionEditor.BuildTree | src/main/kotlin/io/gitlab/arturbosch/detekt/idea/config/ui/DependencyExclusionEditor.kt:255-273 | every node checked; enabled iff not provided and not repeated; a repeated coordinate is a leaf; otherwise one child per dependency, in order |
| DependencyExclusionEditor.BuildTreeFlags | src/main/kotlin/io/gitlab/arturbosch/detekt/idea/config/ui/DependencyExclusionEditor.kt:259-264 | every node of a built tree is checked, and an enabled node is not provided |
| DependencyExclusionEditor.Uncheck | src/main/kotlin/io/gitlab/arturbosch/detekt/idea/config/ui/DependencyExclusionEditor.kt:67-73 | unchecking keeps each node's artifact, enabled flag and number of children |
| DependencyExclusionEditor.UncheckKeepsPaths | src/main/kotlin/io/gitlab/arturbosch/detekt/idea/config/ui/DependencyExclusionEditor.kt:67-73 | the unchecked tree has the same shape and the same artifacts at every path |
| DependencyExclusionEditor.UncheckedIff | src/main/kotlin/io/gitlab/arturbosch/detekt/idea/config/ui/DependencyExclusionEditor.kt:67-73 | a node ends checked iff it is provided or neither its G:A nor any ancestor's is excluded |
| DependencyExclusionEditor.CollectUncheckedNodes | src/main/kotlin/io/gitlab/arturbosch/detekt/idea/config/ui/DependencyExclusionEditor.kt:75-83 | the walk adds exactly the G:As of the unchecked nodes with all ancestors checked to the given set |
| DependencyExclusionEditor.UncheckedSound | src/main/kotlin/io/gitlab/arturbosch/detekt/idea/config/ui/DependencyExclusionEditor.kt:75-83 | every collected G:A is that of an unchecked node whose ancestors are all checked |
| DependencyExclusionEditor.UncheckedComplete | src/main/kotlin/io/gitlab/arturbosch/detekt/idea/config/ui/DependencyExclusionEditor.kt:75-83 | every unchecked node with all ancestors checked has its G:A collected |
| DependencyExclusionEditor.SelectExcludedDependencies | src/main/kotlin/io/gitlab/arturbosch/detekt/idea/config/ui/DependencyExclusionEditor.kt:47-65 | none iff the dialog was cancelled; otherwise only G:As of topmost unchecked nodes |
| DependencyExclusionEditor.TopExcluded | src/main/kotlin/io/gitlab/arturbosch/detekt/idea/config/ui/DependencyExclusionEditor.kt:67-83 | the exclusions not below another excluded node, a subset of the exclusions |
| DependencyExclusionEditor.UntouchedRoundTrip | src/main/kotlin/io/gitlab/arturbosch/detekt/idea/config/ui/DependencyExclusionEditor.kt:47-83 | accepting the dialog without edits returns the stored exclusions that are topmost in the tree, when no provided node is excluded |
| DependencySelectionHandler.MavenCoordinate | src/main/kotlin/io/gitlab/arturbosch/detekt/idea/config/logic/SyncableNode.kt:45-46 | `groupId + ":" + artifactId`, split back at the `:` after the group |
| DependencySelectionHandler.Assign | src/main/kotlin/io/gitlab/arturbosch/detekt/idea/config/logic/DependencySelectionHandler.kt:51-58 | the targets take the new state, except provided nodes when unchecking; every other node keeps its state |
| DependencySelectionHandler.SameArtifact | src/main/kotlin/io/gitlab/arturbosch/detekt/idea/config/logic/DependencySelectionHandler.kt:51-52 | the nodes of `allNodes` with the given G:A |
| DependencySelectionHandler.Synchronize | src/main/kotlin/io/gitlab/arturbosch/detekt/idea/config/logic/DependencySelectionHandler.kt:45-59 | every same-G:A node of `allNodes` takes the new state, provided nodes only when checking; nothing else changes |
| DependencySelectionHandler.PropagateToChildren | src/main/kotlin/io/gitlab/arturbosch/detekt/idea/config/logic/DependencySelectionHandler.kt:61-80 | exactly the nodes reached below the start, off the visited path, are written with the new state, provided ones only when checking |
| DependencySelectionHandler.PropagateToChild | src/main/kotlin/io/gitlab/arturbosch/detekt/idea/config/logic/DependencySelectionHandler.kt:70-78 | one child: it takes the new state, a provided child only when checking, and so does everything the recursion below it writes |
| DependencySelectionHandler.AncestorsBelow | src/main/kotlin/io/gitlab/arturbosch/detekt/idea/config/logic/DependencySelectionHandler.kt:88-94 | a node is never its own ancestor, so the parent walk ends |
| DependencySelectionHandler.PropagateToParent | src/main/kotlin/io/gitlab/arturbosch/detekt/idea/config/logic/DependencySelectionHandler.kt:82-96 | when checking, every ancestor ends checked; when unchecking, nothing changes |
| DependencySelectionHandler.SyncResult | src/main/kotlin/io/gitlab/arturbosch/detekt/idea/config/logic/DependencySelectionHandler.kt:18-43 | the combined effect of the four steps, one state per node |
| DependencySelectionHandler.SyncArtifacts | src/main/kotlin/io/gitlab/arturbosch/detekt/idea/config/logic/DependencySelectionHandler.kt:18-43 | the array after the click handling equals the combined effect of the four steps |
| DependencySelectionHandler.WrittenSound | src/main/kotlin/io/gitlab/arturbosch/detekt/idea/config/logic/DependencySelectionHandler.kt:61-80 | propagation writes only descendants |
| DependencySelectionHandler.WrittenComplete | src/main/kotlin/io/gitlab/arturbosch/detekt/idea/config/logic/DependencySelectionHandler.kt:67-78 | propagation writes the end of every child path whose nodes are distinct and off the visited path |
| DependencySelectionHandler.ShortenPath | src/main/kotlin/io/gitlab/arturbosch/detekt/idea/config/logic/DependencySelectionHandler.kt:67-68 | any child path can be shortened to one without repeats with the same ends, so cycles lose no descendant |
| DependencySelectionHandler.WrittenIffDescendant | src/main/kotlin/io/gitlab/arturbosch/detekt/idea/config/logic/DependencySelectionHandler.kt:61-80 | from a fresh start, propagation writes exactly the descendants, cycles included |
| DependencySelectionHandler.SyncProvided | src/main/kotlin/io/gitlab/arturbosch/detekt/idea/config/logic/DependencySelectionHandler.kt:24-30 | a provided node is set checked and no other node changes |
| DependencySelectionHandler.SyncNeverUnchecksProvided | src/main/kotlin/io/gitlab/arturbosch/detekt/idea/config/logic/DependencySelectionHandler.kt:24-30 | a checked provided node stays checked whatever is clicked |
| DependencySelectionHandler.SyncSameArtifact | src/main/kotlin/io/gitlab/arturbosch/detekt/idea/config/logic/DependencySelectionHandler.kt:32-36 | every same-G:A node takes the new state, except provided nodes when unchecking |
| DependencySelectionHandler.SyncChecks | src/main/kotlin/io/gitlab/arturbosch/detekt/idea/config/logic/DependencySelectionHandler.kt:38-42 | when checking, every descendant and every ancestor ends checked |
| DependencySelectionHandler.SyncUnchecksDescendants | src/main/kotlin/io/gitlab/arturbosch/detekt/idea/config/logic/DependencySelectionHandler.kt:73-78 | when unchecking, non-provided descendants end unchecked and provided ones keep their state |
| DependencySelectionHandler.SyncOthersUnchanged | src/test/kotlin/io/gitlab/arturbosch/detekt/idea/config/logic/DependencySelectionHandlerTest.kt:184-200 | a node that is neither same-G:A, nor a descendant, nor an ancestor while checking keeps its state |
| DependencySelectionHandler.SyncKeepsClickedState | src/main/kotlin/io/gitlab/arturbosch/detekt/idea/config/logic/DependencySelectionHandler.kt:33-42 | the clicked node keeps the state the click gave it, even on a cycle through itself |
| MavenSearchDialog.FlattenAll | src/main/kotlin/io/gitlab/arturbosch/detekt/idea/config/ui/MavenSearchDialog.kt:422-423 | the preorder list of a resolved tree starts with its root |
| MavenSearchDialog.FlattenAllMembers | src/main/kotlin/io/gitlab/arturbosch/detekt/idea/config/ui/MavenSearchDialog.kt:422-423 | a node is listed iff it is the root or lies in a child's subtree |
| MavenSearchDialog.FlattenAllChildrenMembers | src/main/kotlin/io/gitlab/arturbosch/detekt/idea/config/ui/MavenSearchDialog.kt:422-423 | a node is listed for a list of children iff it lies in one of their subtrees |
| MavenSearchDialog.ValidDepsAsWritten | src/main/kotlin/io/gitlab/arturbosch/detekt/idea/config/ui/MavenSearchDialog.kt:414-416 | the label's filter as written: nodes other than the root whose full coordinate is not in the exclusions |
| MavenSearchDialog.ValidDeps | src/main/kotlin/io/gitlab/arturbosch/detekt/idea/config/ui/MavenSearchDialog.kt:414-416 | the label's filter with G:A matching: nodes other than the root that are not excluded |
| MavenSearchDialog.ValidDepsKeys | src/main/kotlin/io/gitlab/arturbosch/detekt/idea/config/ui/MavenSearchDialog.kt:414-417 | the coordinates of the filtered nodes are exactly the coordinates of the nodes that pass the filter |
| MavenSearchDialog.TransitiveCountIsDistinctCoordinates | src/main/kotlin/io/gitlab/arturbosch/detekt/idea/config/ui/MavenSearchDialog.kt:409-420 | the count shown is the number of distinct counted coordinates, and the root's own coordinate is not one of them |
| MavenSearchDialog.SubsetCard | src/main/kotlin/io/gitlab/arturbosch/detekt/idea/config/ui/MavenSearchDialog.kt:417 | a subset has no more elements, which bounds the distinct count |
| MavenSearchDialog.TransitiveCountMonotone | src/main/kotlin/io/gitlab/arturbosch/detekt/idea/config/ui/MavenSearchDialog.kt:409-420 | excluding more never raises the count |
| MavenSearchDialog.TransitiveCountMissesGaExclusion | src/main/kotlin/io/gitlab/arturbosch/detekt/idea/config/ui/MavenSearchDialog.kt:415 | for root r:r:1 with child c:c:1 and exclusion c:c the label as written counts 1 and the corrected count is 0 |
| MavenSearchDialog.MatchingArtifacts | src/main/kotlin/io/gitlab/arturbosch/detekt/idea/config/ui/MavenSearchDialog.kt:283-287 | exactly the hits with the pending coordinate's group and artifact, in order |
| MavenSearchDialog.SelectedAfterShow | src/main/kotlin/io/gitlab/arturbosch/detekt/idea/config/ui/MavenSearchDialog.kt:345-356 | no selection iff there are no versions; the target version when listed, the first version otherwise |
| MavenSearchDialog.SearchKeepsValid | src/main/kotlin/io/gitlab/arturbosch/detekt/idea/config/ui/MavenSearchDialog.kt:228-267 | a search keeps the dialog consistent; a non-blank query clears the selection, switches OK off and disables the button |
| MavenSearchDialog.SelectKeepsValid | src/main/kotlin/io/gitlab/arturbosch/detekt/idea/config/ui/MavenSearchDialog.kt:314-343 | selecting keeps the dialog consistent; a row selects its artifact and starts a resolution when it has versions; no row empties the version box |
| MavenSearchDialog.ResultsKeepValid | src/main/kotlin/io/gitlab/arturbosch/detekt/idea/config/ui/MavenSearchDialog.kt:280-312 | the corrected `showResults` of the fifth Findings row keeps the dialog consistent and ends the search; with a pending coordinate only its hits are shown |
| MavenSearchDialog.ResultsAsWrittenSelectFirstVersion | src/main/kotlin/io/gitlab/arturbosch/detekt/idea/config/ui/MavenSearchDialog.kt:306-311 | as written, with a pending coordinate whose version the first hit offers, the run of `onArtifactSelected` by the selection listener (lines 151-154) and the explicit run end with the newest version selected and two resolutions requested, the target first |
| MavenSearchDialog.ResultsSelectTargetVersion | src/main/kotlin/io/gitlab/arturbosch/detekt/idea/config/ui/MavenSearchDialog.kt:306-311 | as intended, the same pending coordinate ends with its own version selected, the pending coordinate cleared and one resolution requested |
| MavenSearchDialog.ResultsAsWrittenLosesTargetVersion | src/main/kotlin/io/gitlab/arturbosch/detekt/idea/config/ui/MavenSearchDialog.kt:309-310 | query `g:a:1.0` with a hit offering `2.0` and `1.0`: `2.0` as written, `1.0` as intended |
| MavenSearchDialog.ResolvedKeepsValid | src/main/kotlin/io/gitlab/arturbosch/detekt/idea/config/ui/MavenSearchDialog.kt:386-407 | an awaited resolution enables OK iff it produced a tree; an answer nobody waits for changes nothing |
| MavenSearchDialog.CustomizeKeepsValid | src/main/kotlin/io/gitlab/arturbosch/detekt/idea/config/ui/MavenSearchDialog.kt:425-434 | accepting the editor replaces the exclusions and shows the recounted line |
| MavenSearchDialog.Dialog.constructor | src/main/kotlin/io/gitlab/arturbosch/detekt/idea/config/ui/MavenSearchDialog.kt:99-211 | an empty query, a disabled button, no results, an empty disabled version box, and OK off |
| MavenSearchDialog.Dialog.GetResult | src/main/kotlin/io/gitlab/arturbosch/detekt/idea/config/ui/MavenSearchDialog.kt:215-222 | none without an artifact and a version; otherwise `g:a:v`, which splits back into its parts, with the current exclusions |
| MavenSearchDialog.Dialog.CopiedCoordinates | src/main/kotlin/io/gitlab/arturbosch/detekt/idea/config/ui/MavenSearchDialog.kt:436-446 | the copied `g:a` splits back into the row's group and artifact |
| MavenSearchDialog.Dialog.UpdateSearchButtonState | src/main/kotlin/io/gitlab/arturbosch/detekt/idea/config/ui/MavenSearchDialog.kt:224-226 | the button is enabled iff no search runs and the text is not blank; nothing else changes |
| MavenSearchDialog.Dialog.SetSearchText | src/main/kotlin/io/gitlab/arturbosch/detekt/idea/config/ui/MavenSearchDialog.kt:139-145 | typing changes the text and refreshes the button, keeping the dialog consistent |
| MavenSearchDialog.Dialog.ResetTransitiveUI | src/main/kotlin/io/gitlab/arturbosch/detekt/idea/config/ui/MavenSearchDialog.kt:269-278 | OK, the line, the link, the tree, the exclusions and the busy state are cleared |
| MavenSearchDialog.Dialog.StartSearchUI | src/main/kotlin/io/gitlab/arturbosch/detekt/idea/config/ui/MavenSearchDialog.kt:254-267 | the table, the results and the version box are emptied, the search flag set, the button disabled and the transitive area reset |
| MavenSearchDialog.Dialog.BeginSearch | src/main/kotlin/io/gitlab/arturbosch/detekt/idea/config/ui/MavenSearchDialog.kt:235-251 | the pending coordinate is stored and one search request is sent after the search UI starts |
| MavenSearchDialog.Dialog.PerformSearch | src/main/kotlin/io/gitlab/arturbosch/detekt/idea/config/ui/MavenSearchDialog.kt:228-252 | nothing for a blank query; a parsed coordinate searches its artifact id and is kept pending, any other text is searched as it is |
| MavenSearchDialog.Dialog.ResolveDependencies | src/main/kotlin/io/gitlab/arturbosch/detekt/idea/config/ui/MavenSearchDialog.kt:358-384 | nothing without an artifact and a version; otherwise OK off, busy on, and one resolution request for `g:a:v` |
| MavenSearchDialog.Dialog.ShowVersions | src/main/kotlin/io/gitlab/arturbosch/detekt/idea/config/ui/MavenSearchDialog.kt:345-356 | the box lists the versions, is enabled iff there are some, and selects as `SelectedAfterShow` says |
| MavenSearchDialog.Dialog.OnArtifactSelected | src/main/kotlin/io/gitlab/arturbosch/detekt/idea/config/ui/MavenSearchDialog.kt:314-343 | a row selects its artifact, shows its versions, consumes a matching pending coordinate and resolves; no row clears the box and the transitive area |
| MavenSearchDialog.Dialog.ShowResults | src/main/kotlin/io/gitlab/arturbosch/detekt/idea/config/ui/MavenSearchDialog.kt:280-312 | the corrected `showResults` of the fifth Findings row: the hits, filtered by a pending coordinate, fill the table; the search ends; a pending coordinate selects the first row once; the as-written double run is `AfterResultsAsWritten` |
| MavenSearchDialog.Dialog.OnVersionChosen | src/main/kotlin/io/gitlab/arturbosch/detekt/idea/config/ui/MavenSearchDialog.kt:189-192 | choosing a version in the enabled box resolves it, keeping the dialog consistent |
| MavenSearchDialog.Dialog.UpdateTransitiveLabel | src/main/kotlin/io/gitlab/arturbosch/detekt/idea/config/ui/MavenSearchDialog.kt:409-420 | with a resolved tree the line shows its corrected count; without one nothing changes |
| MavenSearchDialog.Dialog.OnDependenciesResolved | src/main/kotlin/io/gitlab/arturbosch/detekt/idea/config/ui/MavenSearchDialog.kt:386-407 | an awaited tree enables OK and the link and shows the count; a failure shows the failure line; a stale answer is dropped |
| MavenSearchDialog.Dialog.OpenCustomizeDialog | src/main/kotlin/io/gitlab/arturbosch/detekt/idea/config/ui/MavenSearchDialog.kt:425-434 | with a resolved tree, an accepted editor replaces the exclusions and recounts; a cancelled one changes nothing |
| FilesListPanel.RemovalEvents | src/main/kotlin/io/gitlab/arturbosch/detekt/idea/config/ui/FilesListPanel.kt:108-117 | one single-index removal event per removed index, in removal order |
| FilesListPanel.AppendEvents | src/main/kotlin/io/gitlab/arturbosch/detekt/idea/config/ui/FilesListPanel.kt:89-95 | one single-index addition event per appended file, at the positions they take |
| FilesListPanel.ClearEventOvershoots | src/main/kotlin/io/gitlab/arturbosch/detekt/idea/config/ui/FilesListPanel.kt:119-123 | the clear event as written ends one past the last index, so it names an index the list never had |
| FilesListPanel.ClearEvents | src/main/kotlin/io/gitlab/arturbosch/detekt/idea/config/ui/FilesListPanel.kt:119-123 | clearing a non-empty list announces the removal of indices 0 to size-1; an empty list announces nothing |
| FilesListPanel.ListModel.constructor | src/main/kotlin/io/gitlab/arturbosch/detekt/idea/config/ui/FilesListPanel.kt:72-76 | the given files, no events yet |
| FilesListPanel.ListModel.Set | src/main/kotlin/io/gitlab/arturbosch/detekt/idea/config/ui/FilesListPanel.kt:84-87 | one item replaced and a change event for its index |
| FilesListPanel.ListModel.Add | src/main/kotlin/io/gitlab/arturbosch/detekt/idea/config/ui/FilesListPanel.kt:97-100 | the item inserted at the index and one addition event there |
| FilesListPanel.ListModel.Append | src/main/kotlin/io/gitlab/arturbosch/detekt/idea/config/ui/FilesListPanel.kt:89-95 | the item appended and one addition event at the old size |
| FilesListPanel.ListModel.AddAll | src/main/kotlin/io/gitlab/arturbosch/detekt/idea/config/ui/FilesListPanel.kt:102-106 | the items inserted at the index; one event covering them, none when there are none |
| FilesListPanel.ListModel.AppendAll | src/main/kotlin/io/gitlab/arturbosch/detekt/idea/config/ui/FilesListPanel.kt:102-106 | the items appended; one event covering them, none when there are none |
| FilesListPanel.ListModel.RemoveAt | src/main/kotlin/io/gitlab/arturbosch/detekt/idea/config/ui/FilesListPanel.kt:108-117 | the indices removed highest first, the removed items returned, one removal event each |
| FilesListPanel.ListModel.RemoveNext | src/main/kotlin/io/gitlab/arturbosch/detekt/idea/config/ui/FilesListPanel.kt:111-114 | one index: the item at that position in the current list is removed, returned after the earlier ones, and reported by one removal event |
| FilesListPanel.ListModel.Clear | src/main/kotlin/io/gitlab/arturbosch/detekt/idea/config/ui/FilesListPanel.kt:119-123 | the corrected `clear` of the second Findings row: no items left, one removal event covering exactly the former indices, none for an empty list; as written the source fires `intervalRemoved(0, formerSize)`, even `(0, 0)` for an empty list |
| FilesListPanel.FilesListPanel.constructor | src/main/kotlin/io/gitlab/arturbosch/detekt/idea/config/ui/FilesListPanel.kt:18-24 | the panel over the given list |
| FilesListPanel.FilesListPanel.OnAddFileClick | src/main/kotlin/io/gitlab/arturbosch/detekt/idea/config/ui/FilesListPanel.kt:52-69 | chosen files not yet listed are appended once each, with one event each; the result says whether the list changed; a duplicate-free list stays so |
| FilesListPanel.FilesListPanel.OnRemoveFileClick | src/main/kotlin/io/gitlab/arturbosch/detekt/idea/config/ui/FilesListPanel.kt:44-50 | exactly the selected rows are removed; the list changed iff something was selected |
| PluginsListPanel.Jars | src/main/kotlin/io/gitlab/arturbosch/detekt/idea/config/ui/PluginsListPanel.kt:73-78 | one jar entry per chosen file, in order |
| PluginsListPanel.PluginListModel.constructor | src/main/kotlin/io/gitlab/arturbosch/detekt/idea/config/ui/PluginsListPanel.kt:94-101 | the given entries |
| PluginsListPanel.PluginListModel.AddItem | src/main/kotlin/io/gitlab/arturbosch/detekt/idea/config/ui/PluginsListPanel.kt:103-109 | the entry appended |
| PluginsListPanel.PluginListModel.AddItems | src/main/kotlin/io/gitlab/arturbosch/detekt/idea/config/ui/PluginsListPanel.kt:103-109 | the entries appended in order |
| PluginsListPanel.PluginListModel.RemoveAt | src/main/kotlin/io/gitlab/arturbosch/detekt/idea/config/ui/PluginsListPanel.kt:111-114 | the indices removed highest first; for distinct valid indices exactly those rows go |
| PluginsListPanel.PluginsListPanel.constructor | src/main/kotlin/io/gitlab/arturbosch/detekt/idea/config/ui/PluginsListPanel.kt:29 | the panel over the given list |
| PluginsListPanel.PluginsListPanel.OnRemoveClick | src/main/kotlin/io/gitlab/arturbosch/detekt/idea/config/ui/PluginsListPanel.kt:63-65 | exactly the selected rows are removed |
| PluginsListPanel.PluginsListPanel.OnAddJarClick | src/main/kotlin/io/gitlab/arturbosch/detekt/idea/config/ui/PluginsListPanel.kt:67-79 | chosen jars not yet listed are appended once each; a duplicate-free list stays so |
| PluginsListPanel.PluginsListPanel.OnAddMavenClick | src/main/kotlin/io/gitlab/arturbosch/detekt/idea/config/ui/PluginsListPanel.kt:81-92 | a confirmed dialog with a result appends it as a Maven entry unless already listed; otherwise nothing changes |
| SettingsState.DefaultState | src/main/kotlin/io/gitlab/arturbosch/detekt/idea/config/DetektPluginSettings.kt:120-146 | the fresh state: only building upon the default configuration is on, the prompt is not set, no baseline, every list empty |
| DetektSettingsMigration.VersionOf | src/main/kotlin/io/gitlab/arturbosch/detekt/idea/config/DetektSettingsMigration.kt:21-25 | a stored version above zero is kept; zero or below reads as the current version |
| DetektSettingsMigration.MigratedFromV2 | src/main/kotlin/io/gitlab/arturbosch/detekt/idea/config/DetektSettingsMigration.kt:28-39 | the v2 path sets move into the new lists and are emptied; every other value is kept |
| DetektSettingsMigration.MigratingTwiceLosesLists | src/main/kotlin/io/gitlab/arturbosch/detekt/idea/config/DetektSettingsMigration.kt:28-39 | migration must run once: a second run over its own output empties the plugin list |
| DetektSettingsMigration.DetektSettingsMigration.constructor | src/main/kotlin/io/gitlab/arturbosch/detekt/idea/config/DetektSettingsMigration.kt:41-44 | the stored version starts unset, which reads as the current version |
| DetektSettingsMigration.DetektSettingsMigration.StateVersion | src/main/kotlin/io/gitlab/arturbosch/detekt/idea/config/DetektSettingsMigration.kt:21-25 | the stored version when positive, otherwise the current one |
| DetektSettingsMigration.DetektSettingsMigration.SetStateVersion | src/main/kotlin/io/gitlab/arturbosch/detekt/idea/config/DetektSettingsMigration.kt:24 | the stored version becomes the value, and reads back when positive |
| DetektSettingsMigration.DetektSettingsMigration.MigrateFromV2ToCurrent | src/main/kotlin/io/gitlab/arturbosch/detekt/idea/config/DetektSettingsMigration.kt:28-39 | the migrated state, and the version raised to the current one |
| DetektPluginSettings.BaselinePathOf | src/main/kotlin/io/gitlab/arturbosch/detekt/idea/config/DetektPluginSettings.kt:66-67 | the stored baseline path, or "" when none is stored |
| DetektPluginSettings.DefaultStateReads | src/main/kotlin/io/gitlab/arturbosch/detekt/idea/config/DetektPluginSettings.kt:27-28 | a fresh state shows the enable prompt and reads an empty baseline path |
| DetektPluginSettings.LoadOrMigrateIfNeeded | src/main/kotlin/io/gitlab/arturbosch/detekt/idea/config/DetektPluginSettings.kt:107-118 | the current version keeps the loaded state, version 2 migrates it, any other version resets to defaults |
| DetektPluginSettings.LoadedDropsDeprecatedData | src/main/kotlin/io/gitlab/arturbosch/detekt/idea/config/DetektPluginSettings.kt:107-118 | unless the version is current, the deprecated v2 path sets are empty after loading |
| DetektPluginSettings.UnsupportedVersionResetsEveryLoad | src/main/kotlin/io/gitlab/arturbosch/detekt/idea/config/DetektPluginSettings.kt:107-118 | with stored version 1 the version is never raised, so the next load discards even a freshly saved enabled state |
| DetektPluginSettings.Load | src/main/kotlin/io/gitlab/arturbosch/detekt/idea/config/DetektPluginSettings.kt:96-118 | the corrected load of the third Findings row: the loaded state as `loadOrMigrateIfNeeded` makes it, and afterwards the stored version reads as current, which the source as written does not store for an unsupported version |
| DetektPluginSettings.NextLoadKeepsSaved | src/main/kotlin/io/gitlab/arturbosch/detekt/idea/config/DetektPluginSettings.kt:96-118 | whatever was loaded first, the next load keeps the state saved since |
| DetektPluginSettings.DetektPluginSettings.constructor | src/main/kotlin/io/gitlab/arturbosch/detekt/idea/config/DetektPluginSettings.kt:17-19 | a fresh state over the given migration settings |
| DetektPluginSettings.DetektPluginSettings.BaselinePath | src/main/kotlin/io/gitlab/arturbosch/detekt/idea/config/DetektPluginSettings.kt:66-67 | "" when no baseline path is stored |
| DetektPluginSettings.DetektPluginSettings.ShouldShowPrompt | src/main/kotlin/io/gitlab/arturbosch/detekt/idea/config/DetektPluginSettings.kt:27-28 | true iff the enable prompt was never answered |
| DetektPluginSettings.DetektPluginSettings.SetEnableDetekt | src/main/kotlin/io/gitlab/arturbosch/detekt/idea/config/DetektPluginSettings.kt:21-25 | only `enableDetekt` changes, and the getter reads the value back |
| DetektPluginSettings.DetektPluginSettings.SetEnableForProjectResult | src/main/kotlin/io/gitlab/arturbosch/detekt/idea/config/DetektPluginSettings.kt:30-34 | only `enableForProjectResult` changes, and the getter reads the value back |
| DetektPluginSettings.DetektPluginSettings.SetEnableFormatting | src/main/kotlin/io/gitlab/arturbosch/detekt/idea/config/DetektPluginSettings.kt:36-40 | only `enableFormatting` changes, and the getter reads the value back |
| DetektPluginSettings.DetektPluginSettings.SetBuildUponDefaultConfig | src/main/kotlin/io/gitlab/arturbosch/detekt/idea/config/DetektPluginSettings.kt:42-46 | only `buildUponDefaultConfig` changes, and the getter reads the value back |
| DetektPluginSettings.DetektPluginSettings.SetEnableAllRules | src/main/kotlin/io/gitlab/arturbosch/detekt/idea/config/DetektPluginSettings.kt:48-52 | only `enableAllRules` changes, and the getter reads the value back |
| DetektPluginSettings.DetektPluginSettings.SetTreatAsErrors | src/main/kotlin/io/gitlab/arturbosch/detekt/idea/config/DetektPluginSettings.kt:54-58 | only `treatAsErrors` changes, and the getter reads the value back |
| DetektPluginSettings.DetektPluginSettings.SetConfigurationFilePaths | src/main/kotlin/io/gitlab/arturbosch/detekt/idea/config/DetektPluginSettings.kt:60-64 | only `configurationFiles` changes, and the getter reads the value back |
| DetektPluginSettings.DetektPluginSettings.SetBaselinePath | src/main/kotlin/io/gitlab/arturbosch/detekt/idea/config/DetektPluginSettings.kt:66-70 | only `baselinePath` changes, and the getter reads the value back |
| DetektPluginSettings.DetektPluginSettings.SetPluginJarPaths | src/main/kotlin/io/gitlab/arturbosch/detekt/idea/config/DetektPluginSettings.kt:72-76 | only `pluginJars` changes, and the getter reads the value back |
| DetektPluginSettings.DetektPluginSettings.SetPlugins | src/main/kotlin/io/gitlab/arturbosch/detekt/idea/config/DetektPluginSettings.kt:78-82 | only `plugins` changes, and the getter reads the value back |
| DetektPluginSettings.DetektPluginSettings.SetDebug | src/main/kotlin/io/gitlab/arturbosch/detekt/idea/config/DetektPluginSettings.kt:84-88 | only `detektDebugMode` changes, and the getter reads the value back |
| DetektPluginSettings.DetektPluginSettings.SetRedirectChannels | src/main/kotlin/io/gitlab/arturbosch/detekt/idea/config/DetektPluginSettings.kt:90-94 | only `redirectChannels` changes, and the getter reads the value back |
| DetektPluginSettings.DetektPluginSettings.LoadState | src/main/kotlin/io/gitlab/arturbosch/detekt/idea/config/DetektPluginSettings.kt:96-105 | the corrected load of the third Findings row: the state and the stored version become those of `Load`, so an unsupported version is replaced by the current one; plugins are reconciled with the loaded list when the host asks |
| IdeaConfigStorage.DetektConfigStorage.constructor | src/main/kotlin/io/gitlab/arturbosch/detekt/idea/config/DetektConfigStorage.kt:16-38 | all five switches off and all three paths empty |
| IdeaConfigStorage.DetektConfigStorage.LoadState | src/main/kotlin/io/gitlab/arturbosch/detekt/idea/config/DetektConfigStorage.kt:40-51 | every value copied from the given storage; since `getState` hands out the storage itself, loading what it returned changes nothing |
| IdeaConfigurationForm.AllSetTo | src/main/java/io/gitlab/arturbosch/detekt/idea/config/DetektConfigurationForm.java:45-54 | all seven dependent widgets set to the same flag |
| IdeaConfigurationForm.Modified | src/main/java/io/gitlab/arturbosch/detekt/idea/config/DetektConfigurationForm.java:120-129 | true iff some stored value differs from the shown one |
| IdeaConfigurationForm.BuiltIsJoin | src/main/java/io/gitlab/arturbosch/detekt/idea/config/DetektConfigurationForm.java:80-93 | the chooser's text for non-empty paths is the paths joined by the path separator, and non-empty when some path is chosen |
| IdeaConfigurationForm.ChosenPathsSplitBack | src/main/java/io/gitlab/arturbosch/detekt/idea/config/DetektConfigurationForm.java:80-93 | splitting the field text at the path separator gives back the chosen paths |
| IdeaConfigurationForm.PathsOf | src/main/java/io/gitlab/arturbosch/detekt/idea/config/DetektConfigurationForm.java:86-89 | the paths of the chosen files, in order |
| IdeaConfigurationForm.DetektConfigurationForm.constructor | src/main/java/io/gitlab/arturbosch/detekt/idea/config/DetektConfigurationForm.java:34-44 | the form over the given storage with the widgets as laid out |
| IdeaConfigurationForm.DetektConfigurationForm.IsModified | src/main/java/io/gitlab/arturbosch/detekt/idea/config/DetektConfigurationForm.java:120-129 | true iff the shown values differ from the stored ones |
| IdeaConfigurationForm.DetektConfigurationForm.Apply | src/main/java/io/gitlab/arturbosch/detekt/idea/config/DetektConfigurationForm.java:98-107 | every shown value stored; afterwards the form is not modified |
| IdeaConfigurationForm.DetektConfigurationForm.OnEnableDetektChanged | src/main/java/io/gitlab/arturbosch/detekt/idea/config/DetektConfigurationForm.java:45-54 | every dependent widget follows the switch; no value changes |
| IdeaConfigurationForm.DetektConfigurationForm.Reset | src/main/java/io/gitlab/arturbosch/detekt/idea/config/DetektConfigurationForm.java:109-118 | every stored value shown, so the form is not modified; a changed switch updates the dependent widgets |
| IdeaConfigurationForm.DetektConfigurationForm.SelectEnableDetekt | src/main/java/io/gitlab/arturbosch/detekt/idea/config/DetektConfigurationForm.java:45-54 | the switch takes the selection; a change updates the dependent widgets |
| IdeaConfigurationForm.DetektConfigurationForm.OnPluginFilesChosen | src/main/java/io/gitlab/arturbosch/detekt/idea/config/DetektConfigurationForm.java:80-93 | with chosen files the plugin field shows their paths joined by the path separator; with none it keeps its text |
| IdeaConfigurationForm.ApplyThenReset | src/main/java/io/gitlab/arturbosch/detekt/idea/config/DetektConfigurationForm.java:98-118 | apply followed by reset leaves the shown values as they were and the form unmodified |
| LegacyConfigStorage.DetektConfigStorage.constructor | src/main/kotlin/io/gitlab/arturbosch/detekt/config/DetektConfigStorage.kt:20-36 | every switch off and every path empty |
| LegacyConfigStorage.DetektConfigStorage.LoadState | src/main/kotlin/io/gitlab/arturbosch/detekt/config/DetektConfigStorage.kt:38-47 | every value copied from the given storage; since `getState` hands out the storage itself, loading what it returned changes nothing |
| LegacyConfigurationForm.Modified | src/main/java/io/gitlab/arturbosch/detekt/config/DetektConfigurationForm.java:69-76 | true iff some stored value differs from the shown one |
| LegacyConfigurationForm.DetektConfigurationForm.constructor | src/main/java/io/gitlab/arturbosch/detekt/config/DetektConfigurationForm.java:27-49 | the form over the given storage with the widgets as laid out |
| LegacyConfigurationForm.DetektConfigurationForm.IsModified | src/main/java/io/gitlab/arturbosch/detekt/config/DetektConfigurationForm.java:69-76 | true iff the shown values differ from the stored ones |
| LegacyConfigurationForm.DetektConfigurationForm.Apply | src/main/java/io/gitlab/arturbosch/detekt/config/DetektConfigurationForm.java:51-58 | every shown value stored; afterwards the form is not modified |
| LegacyConfigurationForm.DetektConfigurationForm.Reset | src/main/java/io/gitlab/arturbosch/detekt/config/DetektConfigurationForm.java:60-67 | every stored value shown; afterwards the form is not modified |
| ProjectUtils.AbsolutePath | src/main/kotlin/io/gitlab/arturbosch/detekt/idea/util/ProjectUtils.kt:26-31 | a blank or absolute path, or any path of a project without a base directory, is kept; any other is placed under the base directory |
| ProjectUtils.AbsolutePathIdempotent | src/main/kotlin/io/gitlab/arturbosch/detekt/idea/util/ProjectUtils.kt:26-31 | resolving a resolved path changes nothing when the base directory is absolute |
| ProjectUtils.AbsoluteBaselinePath | src/main/kotlin/io/gitlab/arturbosch/detekt/idea/util/ProjectUtils.kt:33-36 | none iff the baseline path is blank; otherwise the untrimmed path, resolved |
| ProjectUtils.ToVirtualFilesList | src/main/kotlin/io/gitlab/arturbosch/detekt/idea/util/ProjectUtils.kt:38-42 | no more files than paths |
| ProjectUtils.ToVirtualFilesListMembers | src/main/kotlin/io/gitlab/arturbosch/detekt/idea/util/ProjectUtils.kt:38-42 | a file is listed iff some non-blank path finds it |
| ProjectUtils.ToVirtualFilesListAppend | src/main/kotlin/io/gitlab/arturbosch/detekt/idea/util/ProjectUtils.kt:38-42 | the conversion keeps order and works path by path |
| ProjectUtils.ToPathsList | src/main/kotlin/io/gitlab/arturbosch/detekt/idea/util/ProjectUtils.kt:44-46 | only paths of existing files, no more than the files |
| ProjectUtils.ToPathsListMembers | src/main/kotlin/io/gitlab/arturbosch/detekt/idea/util/ProjectUtils.kt:44-46 | a path is listed iff it exists and one of the files has it |
| ProjectUtils.ValidateAsFilePath | src/main/kotlin/io/gitlab/arturbosch/detekt/idea/util/ProjectUtils.kt:80-89 | no message iff the text is empty or names a regular file; otherwise a warning or an error as asked, with the file-path message |
| ProjectUtil.AbsolutePath | src/main/kotlin/io/gitlab/arturbosch/detekt/util/ProjectUtil.kt:18-23 | a blank or absolute path is kept; any other follows the base path and a separator, `null` standing for a missing base path |
| ProjectUtil.NoBasePathGivesNullDirectory | src/main/kotlin/io/gitlab/arturbosch/detekt/util/ProjectUtil.kt:18-23 | without a base path a relative path lands under `null/` |
| ProjectUtil.EnsureFileExists | src/main/kotlin/io/gitlab/arturbosch/detekt/util/ProjectUtil.kt:25-43 | true iff the path exists; a missing path shows one warning with the given title and content |
| ProjectUtil.WithoutFormatting | src/main/kotlin/io/gitlab/arturbosch/detekt/util/ProjectUtil.kt:46-48 | exactly the providers other than formatting, no more than given |
| ProjectUtil.FacadeProviders | src/main/kotlin/io/gitlab/arturbosch/detekt/util/ProjectUtil.kt:45-52 | all providers when formatting is enabled; all but formatting otherwise |
| ProjectUtil.WithoutFormattingAppend | src/main/kotlin/io/gitlab/arturbosch/detekt/util/ProjectUtil.kt:46-48 | dropping formatting keeps the other providers in order |
| DetektConfigStorageExtensions.Resolved | src/main/kotlin/io/gitlab/arturbosch/detekt/config/DetektConfigStorageExtensions.kt:14 | each entry resolved with `absolutePath`, in order |
| DetektConfigStorageExtensions.PluginsAsWritten | src/main/kotlin/io/gitlab/arturbosch/detekt/config/DetektConfigStorageExtensions.kt:11-30 | as written: none iff some split entry is missing; the list is never empty |
| DetektConfigStorageExtensions.EmptyTextGivesEmptyPath | src/main/kotlin/io/gitlab/arturbosch/detekt/config/DetektConfigStorageExtensions.kt:12-16 | an empty text yields the one path "", or none when that path does not exist |
| DetektConfigStorageExtensions.Plugins | src/main/kotlin/io/gitlab/arturbosch/detekt/config/DetektConfigStorageExtensions.kt:11-30 | corrected: the resolved non-blank entries, none iff one of them is missing |
| DetektConfigStorageExtensions.EmptyTextGivesNoPlugins | src/main/kotlin/io/gitlab/arturbosch/detekt/config/DetektConfigStorageExtensions.kt:12-16 | an empty text gives an empty plugin list |
| DetektConfigStorageExtensions.JoinedPathsReadBack | src/main/kotlin/io/gitlab/arturbosch/detekt/config/DetektConfigStorageExtensions.kt:11-30 | existing absolute paths joined by the path separator read back as the same list |
| DetektConfigStorageExtensions.AbsoluteResolvedUnchanged | src/main/kotlin/io/gitlab/arturbosch/detekt/config/DetektConfigStorageExtensions.kt:14 | absolute paths are not blank and resolve to themselves |
| AutoCorrectConfig.ValueOrDefault | src/main/kotlin/io/gitlab/arturbosch/detekt/config/NoAutoCorrectConfig.kt:14 | the stored value for the key, or the default |
| AutoCorrectConfig.SubConfig | src/main/kotlin/io/gitlab/arturbosch/detekt/config/NoAutoCorrectConfig.kt:8 | the named section, or an empty configuration |
| AutoCorrectConfig.NoAutoCorrectValue | src/main/kotlin/io/gitlab/arturbosch/detekt/config/NoAutoCorrectConfig.kt:10-15 | `autoCorrect` reads false at top level while global autocorrect is off; any other key passes through |
| AutoCorrectConfig.AutoCorrectNeverOn | src/main/kotlin/io/gitlab/arturbosch/detekt/config/NoAutoCorrectConfig.kt:11-12 | with global autocorrect off, the top-level key never reads true |
| AutoCorrectConfig.GlobalOnIsTransparent | src/main/kotlin/io/gitlab/arturbosch/detekt/config/NoAutoCorrectConfig.kt:10-15 | with global autocorrect on, the wrapper answers as the wrapped configuration |
| AutoCorrectConfig.SectionsAreNotIntercepted | src/main/kotlin/io/gitlab/arturbosch/detekt/config/NoAutoCorrectConfig.kt:8-15 | an `autoCorrect` key inside a section is read from the section unchanged |
| SimpleAppendable.Emitted | src/main/kotlin/io/gitlab/arturbosch/detekt/idea/util/SimpleAppendable.kt:5-11 | nothing for blank text, otherwise the trimmed text once |
| SimpleAppendable.EmittedIsTrimmed | src/main/kotlin/io/gitlab/arturbosch/detekt/idea/util/SimpleAppendable.kt:5-11 | an emitted line neither starts nor ends with whitespace |
| SimpleAppendable.EmittedIdempotent | src/main/kotlin/io/gitlab/arturbosch/detekt/idea/util/SimpleAppendable.kt:5-11 | emitting an emitted line again gives the same line |
| SimpleAppendable.SimpleAppendable.constructor | src/main/kotlin/io/gitlab/arturbosch/detekt/idea/util/SimpleAppendable.kt:3 | nothing consumed yet |
| SimpleAppendable.SimpleAppendable.Append | src/main/kotlin/io/gitlab/arturbosch/detekt/idea/util/SimpleAppendable.kt:5-11 | the sink receives the trimmed text unless blank; the appendable itself is returned |
| SimpleAppendable.SimpleAppendable.AppendRange | src/main/kotlin/io/gitlab/arturbosch/detekt/idea/util/SimpleAppendable.kt:13-16 | the sink receives the trimmed slice unless blank |
| SimpleAppendable.SimpleAppendable.AppendChar | src/main/kotlin/io/gitlab/arturbosch/detekt/idea/util/SimpleAppendable.kt:18-21 | a whitespace character is dropped, any other is passed on as a one-character line |
| DownloadFile.FirstQuerySegment | src/main/kotlin/io/gitlab/arturbosch/detekt/idea/util/DownloadFile.kt:55-63 | the index of the first segment holding '?', or -1 when none does |
| DownloadFile.UrlFileName | src/main/kotlin/io/gitlab/arturbosch/detekt/idea/util/DownloadFile.kt:53-69 | the name taken from a URL contains neither a separator nor '?' |
| DownloadFile.PlainNameIsKept | src/main/kotlin/io/gitlab/arturbosch/detekt/idea/util/DownloadFile.kt:65-68 | a bare name is its own file name |
| DownloadFile.QueryIsDropped | src/main/kotlin/io/gitlab/arturbosch/detekt/idea/util/DownloadFile.kt:55-63 | `base/name?query` gives `name` |
| DownloadFile.SegmentWithin | src/main/kotlin/io/gitlab/arturbosch/detekt/idea/util/DownloadFile.kt:55-63 | a split segment holds only characters of the text |
| DownloadFile.GetUrlFileName | src/main/kotlin/io/gitlab/arturbosch/detekt/idea/util/DownloadFile.kt:53-69 | the loop over the segments finds the same name as the reference definition |
| DownloadFile.ConfigPath | src/main/kotlin/io/gitlab/arturbosch/detekt/idea/util/DownloadFile.kt:44-51 | the `config` directory inside the plugin directory |
| DownloadFile.DownloadTarget | src/main/kotlin/io/gitlab/arturbosch/detekt/idea/util/DownloadFile.kt:21-22 | the URL's file name inside the config directory |
| DownloadFile.DownloadFile | src/main/kotlin/io/gitlab/arturbosch/detekt/idea/util/DownloadFile.kt:20-42 | an existing target is returned without a request; otherwise one request, and the target iff it succeeds |
| DownloadFile.SecondDownloadIsLocal | src/main/kotlin/io/gitlab/arturbosch/detekt/idea/util/DownloadFile.kt:23-25 | after a successful download the same request is answered from disk |
| DetektProblem.IconLevel | src/main/kotlin/io/gitlab/arturbosch/detekt/idea/problems/DetektProblem.kt:25-30 | errors, warnings and infos show as error, warning and weak-warning icons, each iff |
| DetektProblem.IconLevelInjective | src/main/kotlin/io/gitlab/arturbosch/detekt/idea/problems/DetektProblem.kt:25-30 | different severities show different icons |
| DetektProblem.ProblemOf | src/main/kotlin/io/gitlab/arturbosch/detekt/idea/problems/DetektProblem.kt:16-36 | text, description, group and icon come from the finding; line and column are the finding's minus one |
| DetektProblem.ProblemPositionIsZeroBased | src/main/kotlin/io/gitlab/arturbosch/detekt/idea/problems/DetektProblem.kt:32-36 | a position from 1 gives a position from 0; the first character is 0:0 |
| DetektProblem.ProblemKeepsIdentity | src/main/kotlin/io/gitlab/arturbosch/detekt/idea/problems/DetektProblem.kt:16-36 | two findings shown as the same problem agree in id, severity, position, message and description |
| FindingsManager.TotalSizeSplit | src/main/kotlin/io/gitlab/arturbosch/detekt/idea/problems/FindingsManager.kt:30 | the total is one file's findings plus the rest |
| FindingsManager.TotalSizeAfterPut | src/main/kotlin/io/gitlab/arturbosch/detekt/idea/problems/FindingsManager.kt:30-38 | after storing a file's findings the total counts them instead of the old ones |
| FindingsManager.FindingsManager.constructor | src/main/kotlin/io/gitlab/arturbosch/detekt/idea/problems/FindingsManager.kt:19-20 | no findings and no listeners |
| FindingsManager.FindingsManager.Register | src/main/kotlin/io/gitlab/arturbosch/detekt/idea/problems/FindingsManager.kt:22-24 | the listener is added to the set; nothing else changes |
| FindingsManager.FindingsManager.NotifyListeners | src/main/kotlin/io/gitlab/arturbosch/detekt/idea/problems/FindingsManager.kt:26-28 | each registered listener is invoked once |
| FindingsManager.FindingsManager.GetAllFindingsSize | src/main/kotlin/io/gitlab/arturbosch/detekt/idea/problems/FindingsManager.kt:30 | the number of findings over all files |
| FindingsManager.FindingsManager.GetFindings | src/main/kotlin/io/gitlab/arturbosch/detekt/idea/problems/FindingsManager.kt:32 | the stored findings, or none for a file never analysed |
| FindingsManager.FindingsManager.GetAnalyzedFiles | src/main/kotlin/io/gitlab/arturbosch/detekt/idea/problems/FindingsManager.kt:34 | each analysed file once |
| FindingsManager.FindingsManager.Put | src/main/kotlin/io/gitlab/arturbosch/detekt/idea/problems/FindingsManager.kt:36-38 | the file's findings replaced; other files unchanged; no listener is notified |
| FindingsManager.FindingsManager.Dispose | src/main/kotlin/io/gitlab/arturbosch/detekt/idea/problems/FindingsManager.kt:40-43 | findings and listeners cleared |
| FindingsManager.RegisterTwiceNotifiesOnce | src/main/kotlin/io/gitlab/arturbosch/detekt/idea/problems/FindingsManager.kt:19-28 | a listener registered twice is notified once per notification |
| ConfiguredService.Resolve | src/main/kotlin/io/gitlab/arturbosch/detekt/idea/ConfiguredService.kt:99-101 | an absolute path, or any path without a base directory, is kept; an empty one is the base directory; any other goes under it |
| ConfiguredService.AsAbsolutePaths | src/main/kotlin/io/gitlab/arturbosch/detekt/idea/ConfiguredService.kt:99-101 | each entry, with '/' as the separator, resolved in order |
| ConfiguredService.ResolvedNonBlankMembers | src/main/kotlin/io/gitlab/arturbosch/detekt/idea/ConfiguredService.kt:85-97 | blank entries are dropped, and a path is produced iff some non-blank entry resolves to it |
| ConfiguredService.ConfigPaths | src/main/kotlin/io/gitlab/arturbosch/detekt/idea/ConfiguredService.kt:85-90 | at most one path per configured file; a path is checked and handed to detekt iff some non-blank configuration file resolves to it |
| ConfiguredService.PluginPaths | src/main/kotlin/io/gitlab/arturbosch/detekt/idea/ConfiguredService.kt:92-97 | at most one path per configured jar; a path is checked and handed to detekt iff some non-blank plugin jar resolves to it |
| ConfiguredService.Baseline | src/main/kotlin/io/gitlab/arturbosch/detekt/idea/ConfiguredService.kt:103-105 | none iff the baseline path is blank; otherwise it is resolved |
| ConfiguredService.CheckPathsBound | src/main/kotlin/io/gitlab/arturbosch/detekt/idea/ConfiguredService.kt:38-44 | at most one message per path, and none iff every path exists and is not a directory |
| ConfiguredService.NoMessagesIff | src/main/kotlin/io/gitlab/arturbosch/detekt/idea/ConfiguredService.kt:35-52 | validation finds nothing iff every plugin and configuration path is a usable file and the baseline, when set, exists |
| ConfiguredService.DefaultsGiveNoMessages | src/test/kotlin/io/gitlab/arturbosch/detekt/idea/ConfiguredServiceTest.kt:12-19 | default settings validate without messages |
| ConfiguredService.OneMissingConfig | src/test/kotlin/io/gitlab/arturbosch/detekt/idea/ConfiguredServiceTest.kt:21-31 | one missing configuration file gives exactly its one message |
| ConfiguredService.OnePathMessages | src/main/kotlin/io/gitlab/arturbosch/detekt/idea/ConfiguredService.kt:38-44 | one missing path gives exactly the missing-file message |
| ConfiguredService.OneMissingPlugin | src/test/kotlin/io/gitlab/arturbosch/detekt/idea/ConfiguredServiceTest.kt:45-55 | one missing plugin jar gives exactly its one message |
| ConfiguredService.OneMissingBaseline | src/test/kotlin/io/gitlab/arturbosch/detekt/idea/ConfiguredServiceTest.kt:33-43 | a missing baseline gives exactly its one message |
| ConfiguredService.CheckPathsInto | src/main/kotlin/io/gitlab/arturbosch/detekt/idea/ConfiguredService.kt:38-44 | the loop appends exactly the messages of the reference definition |
| ConfiguredService.ValidatePaths | src/main/kotlin/io/gitlab/arturbosch/detekt/idea/ConfiguredService.kt:35-52 | plugin messages, then configuration messages, then the baseline message |
| ConfiguredService.Validate | src/main/kotlin/io/gitlab/arturbosch/detekt/idea/ConfiguredService.kt:35-52 | the messages of the reference validation, in order |
| ConfiguredService.SpecOf | src/main/kotlin/io/gitlab/arturbosch/detekt/idea/ConfiguredService.kt:137-150 | the run reads the one file with the settings' rule switches and paths, and disables formatting iff it is off |
| ConfiguredService.ExecuteContent | src/main/kotlin/io/gitlab/arturbosch/detekt/idea/ConfiguredService.kt:132-152 | the debugging file name yields no findings; otherwise none iff the run crashes, else its findings |
| ConfiguredService.ExecuteFile | src/main/kotlin/io/gitlab/arturbosch/detekt/idea/ConfiguredService.kt:107-122 | a file without a canonical path, or whose run crashes, yields no findings; otherwise the run's findings |
| ConfiguredService.FindingsNeedACompletedRun | src/test/kotlin/io/gitlab/arturbosch/detekt/idea/ConfiguredServiceTest.kt:71-78 | findings imply a real file path and a completed run, whose findings they are |
| DetektAnnotator.DoAnnotate | src/main/kotlin/io/gitlab/arturbosch/detekt/idea/DetektAnnotator.kt:24-45 | nothing when detekt is off or the file is not Kotlin (neither its language nor a test marks it as Kotlin); the validation messages when there are some; the findings otherwise |
| DetektAnnotator.FindingsNeedValidSettings | src/main/kotlin/io/gitlab/arturbosch/detekt/idea/DetektAnnotator.kt:24-41 | findings imply detekt on, a Kotlin file, every configured path usable and a completed run |
| DetektAnnotator.GetSeverity | src/main/kotlin/io/gitlab/arturbosch/detekt/idea/DetektAnnotator.kt:80-94 | error when treating as errors; warning without a custom configuration; otherwise the finding's severity, each iff |
| DetektAnnotator.EditorAgreesWithProblemsView | src/main/kotlin/io/gitlab/arturbosch/detekt/idea/DetektAnnotator.kt:89-93 | with a custom configuration the editor shows the same level as the problems view |
| DetektAnnotator.AnnotationMessage | src/main/kotlin/io/gitlab/arturbosch/detekt/idea/DetektAnnotator.kt:56-61 | `detekt - <rule id>: ` followed by the finding's message |
| DetektAnnotator.MessageNamesRule | src/main/kotlin/io/gitlab/arturbosch/detekt/idea/DetektAnnotator.kt:56-61 | the rule id can be read back from the message |
| DetektAnnotator.AnnotationOf | src/main/kotlin/io/gitlab/arturbosch/detekt/idea/DetektAnnotator.kt:53-74 | severity, message and range from the finding; file level iff it spans the file; auto-correct iff correctable, else add-to-baseline |
| DetektAnnotator.Apply | src/main/kotlin/io/gitlab/arturbosch/detekt/idea/DetektAnnotator.kt:47-78 | one annotation per finding; all errors when treating as errors; all warnings without configuration files |
| RunAnalysisAction.Extension | src/main/kotlin/io/gitlab/arturbosch/detekt/idea/action/RunAnalysisAction.kt:64-75 | none iff the name has no '.'; otherwise the text after the last '.' |
| RunAnalysisAction.Update | src/main/kotlin/io/gitlab/arturbosch/detekt/idea/action/RunAnalysisAction.kt:25-29 | without a selection the presentation is unchanged; with one, enabled iff some selected file is a directory or Kotlin |
| RunAnalysisAction.KotlinSourceExtension | src/main/kotlin/io/gitlab/arturbosch/detekt/idea/Constants.kt:8 | `X.kt` has the extension `kt` |
| RunAnalysisAction.KotlinSourceEnables | src/main/kotlin/io/gitlab/arturbosch/detekt/idea/action/RunAnalysisAction.kt:25-29 | selecting a `.kt` file enables the action |
| RunAnalysisAction.WeightAppend | src/main/kotlin/io/gitlab/arturbosch/detekt/idea/action/RunAnalysisAction.kt:64-75 | the size measure on which the walk's termination rests is additive |
| RunAnalysisAction.LeavesAppend | src/main/kotlin/io/gitlab/arturbosch/detekt/idea/action/RunAnalysisAction.kt:64-75 | the files below a list of nodes split over concatenation |
| RunAnalysisAction.PopWeight | src/main/kotlin/io/gitlab/arturbosch/detekt/idea/action/RunAnalysisAction.kt:64-75 | replacing a directory by its children lowers the measure |
| RunAnalysisAction.YieldedAreLeaves | src/main/kotlin/io/gitlab/arturbosch/detekt/idea/action/RunAnalysisAction.kt:64-75 | the walk yields every file below the selection exactly as often as it occurs |
| RunAnalysisAction.FindAllFilesRecursively | src/main/kotlin/io/gitlab/arturbosch/detekt/idea/action/RunAnalysisAction.kt:64-75 | the stack walk lists the reference sequence, which is the multiset of files below the selection |
| RunAnalysisAction.KotlinFiles | src/main/kotlin/io/gitlab/arturbosch/detekt/idea/action/RunAnalysisAction.kt:39-43 | exactly the files that open as Kotlin |
| RunAnalysisAction.PutAllLookup | src/main/kotlin/io/gitlab/arturbosch/detekt/idea/action/RunAnalysisAction.kt:52-57 | the analysed files gain their findings; every other file keeps its own |
| RunAnalysisAction.ActionPerformed | src/main/kotlin/io/gitlab/arturbosch/detekt/idea/action/RunAnalysisAction.kt:31-62 | nothing without a selection or project; otherwise each Kotlin file below the selection stored with its findings, and listeners notified once |
| RunAnalysisAction.RunStoresEveryKotlinFile | src/main/kotlin/io/gitlab/arturbosch/detekt/idea/action/RunAnalysisAction.kt:31-62 | every Kotlin file below the selection ends up stored with its findings |
| PluginDependencyService.Reconciliation.constructor | src/main/kotlin/io/gitlab/arturbosch/detekt/idea/util/PluginDependencyService.kt:82-94 | the reconciliation starts with nothing allowed, resolved, mapped or stated |
| Ordering.SortDescending | src/main/kotlin/io/gitlab/arturbosch/detekt/idea/config/ui/MavenArtifactFetcher.kt:384-385 | a permutation of the versions that is non-increasing under the version order |
| Distinct.DistinctBy | src/main/kotlin/io/gitlab/arturbosch/detekt/idea/util/PluginDependencyService.kt:209 | `distinctBy`: only elements whose key was not seen, the first element kept when new |
| Distinct.DistinctByIsDistinct | src/main/kotlin/io/gitlab/arturbosch/detekt/idea/util/PluginDependencyService.kt:209 | no two kept elements share a key, and none has a key seen before |
| Distinct.DistinctByCoversKeys | src/main/kotlin/io/gitlab/arturbosch/detekt/idea/util/PluginDependencyService.kt:209 | every key not seen before is kept by some element |
| Distinct.DistinctByKeepsFirst | src/main/kotlin/io/gitlab/arturbosch/detekt/idea/util/PluginDependencyService.kt:209 | each kept element is the first with its key |
| Distinct.DistinctByCount | src/main/kotlin/io/gitlab/arturbosch/detekt/idea/config/ui/MavenSearchDialog.kt:417 | the number kept is the number of distinct new keys |
| ListEdits.RemoveSortedDescending | src/main/kotlin/io/gitlab/arturbosch/detekt/idea/config/ui/PluginsListPanel.kt:111-114 | removing distinct indices highest first removes exactly those positions |
| ListEdits.RemoveReversedAscending | src/main/kotlin/io/gitlab/arturbosch/detekt/idea/config/ui/FilesListPanel.kt:108-117 | removing ascending indices in reverse removes exactly those positions and returns their items |
| ListEdits.AppendNewSpec | src/main/kotlin/io/gitlab/arturbosch/detekt/idea/config/ui/FilesListPanel.kt:60-68 | every chosen item ends up listed, nothing else is added, a duplicate-free list stays so, and the list is unchanged iff every chosen item was listed |
| Strings.SplitJoin | src/main/kotlin/io/gitlab/arturbosch/detekt/idea/util/CoordToRelativePath.kt:19 | splitting a joined list of separator-free parts gives the parts back |
| Strings.TrimEmptyIffBlank | src/main/kotlin/io/gitlab/arturbosch/detekt/idea/util/ProjectUtils.kt:33-36 | trimming gives the empty text iff the text is blank |
| Strings.SubstringBeforeLast | src/main/kotlin/io/gitlab/arturbosch/detekt/idea/util/PluginDependencyService.kt:197 | `substringBeforeLast`: the text before the last occurrence, and the whole text when there is none |
| Strings.SubstringAfterLast | src/main/kotlin/io/gitlab/arturbosch/detekt/idea/util/ExtractCoordinate.kt:24-28 | `substringAfterLast`: no occurrence of the character, and the whole text when there is none |

## Left out

- Concurrency: the search's background thread and its race with a newer search, the thread pool, futures and shutdown of the version fetch, the reconciliation lock and background task, the thread safety of `FindingsManager`, `DirectExecutor` and `invokeLater` are not modelled. Every event runs to completion in the order given.
- `VersionComparatorUtil` is not part of this model. Versions are ordered by any total preorder given as a parameter.
- `JarRepositoryManager` and `MavenTreeResolver` are not part of this model. The resolved tree and the resolved files are parameters.
- The detekt core run (`ConfiguredService.kt:137-152`) is a parameter outcome, completed with findings or crashed. The rethrow of a read failure in `execute(PsiFile)` is folded into "no findings".
- File I/O is reduced to the decisions taken:
  - `Files.walk`, delete, copy and the JSON write of `downloaded.json` are out; the model returns which files are deleted and copied and the state that is written.
  - The removal of empty directories after cleanup is not modelled.
- The HTTP transfer of `download` (`DownloadFile.kt:27-41`) is a parameter that succeeds or fails. The directory creation of `getConfigPath` is not modelled.
- `DownloadFile.GetUrlFileName`: the time-based fallback name is unreachable, because splitting never yields an empty list, so the model always returns a name.
- `java.nio` path normalisation is not modelled. Paths are joined textually with `/`.
- `DetektConfig.onDataChanged` (DetektConfig.kt:129-131) is an empty TODO and is not modelled.
- FilesListPanel.FilesListPanel.OnAddFileClick and FilesListPanel.FilesListPanel.OnRemoveFileClick: the panel passes `{ TODO() }` as `onDataChanged` (FilesListPanel.kt:35,38), so whenever the list changed the callback throws `NotImplementedError` after the change is made. The model returns `changed`, which says exactly when that callback runs, and does not model the exception.
- `MavenSearchDialog.Dialog.OnVersionChosen`: only the user's choice in the enabled box is modelled. Programmatic changes of the combo box raise no event in the model.
- Widget layout, initial widget values and the look of renderers are parameters or left out.
- The virtual file system is a finite tree. Symbolic-link cycles cannot occur in the model.
- The v2 settings sets (`configurationFilePaths`, `pluginJarPaths`) are sequences in their iteration order.
- The list setters of `DetektPluginSettings` copy their argument. Dafny sequences are values, so later changes to the argument cannot reach the state and need no modelling.
- Message texts are bundle keys or fixed strings built from them. Notifications are recorded, not displayed, where the model returns them (`ConfiguredService`, `DetektAnnotator`, `ProjectUtil.EnsureFileExists`).
- DetektConfigStorageExtensions.PluginsAsWritten and DetektConfigStorageExtensions.Plugins: the "Plugin jar file not found" notification (DetektConfigStorageExtensions.kt:19-23) is not recorded; a missing jar shows only as the `None` result.
- `AutoCorrectConfig`: only `valueOrDefault` and `subConfig` of detekt's `Config` are modelled. The unchecked Kotlin cast of the returned value is not.
- Listeners are identities. `RunAnalysisAction` takes `analyse`, `isKotlinPsi` and the PSI lookup as parameters.
- The older `DetektAnnotator` and the other host actions, tool windows and views are not part of this model.
- `DependencyExclusionEditor` works on tree values: the in-place mutation of `CheckedTreeNode` objects, and their aliasing, are not modelled.
- The older `DetektConfigStorage` has no plugin path field. `DetektConfigStorageExtensions.Plugins` takes the plugin path text as a parameter.

## Findings

| source | as written | input that shows it | evidently intended | confidence | as-written member | corrected member |
|---|---|---|---|---|---|---|
| src/main/kotlin/io/gitlab/arturbosch/detekt/idea/config/ui/MavenSearchDialog.kt:415 | the transitive count filters by the full coordinate `g:a:v`, but the exclusion editor returns `g:a` pairs | root `r:r:1` with child `c:c:1`, exclusions `{"c:c"}`: the label counts 1 | excluded nodes themselves are not counted, whatever their version: count 0 (nodes below an excluded node still count) | high, not executed | `MavenSearchDialog.TransitiveCountMissesGaExclusion` (over `TransitiveCountAsWritten`) | `MavenSearchDialog.TransitiveCountIsDistinctCoordinates` (over `TransitiveCount`, used by the dialog) |
| src/main/kotlin/io/gitlab/arturbosch/detekt/idea/config/ui/FilesListPanel.kt:119-123 | `clear` fires `intervalRemoved(0, formerSize)`, whose last index is inclusive | a list of one file: the event names indices 0 and 1 | `intervalRemoved(0, formerSize - 1)`, and no event for an empty list | medium, not executed | `FilesListPanel.ClearEventOvershoots` (over `ClearEventAsWritten`) | `FilesListPanel.ClearEvents` (used by `ListModel.Clear`) |
| src/main/kotlin/io/gitlab/arturbosch/detekt/idea/config/DetektPluginSettings.kt:107-118 | an unsupported stored version resets to defaults but never stores the current version | stored version 1: every later load resets the settings again, even right after the user saved them | the reset state is stored together with the current version, so the next load keeps what was saved | medium, not executed | `DetektPluginSettings.UnsupportedVersionResetsEveryLoad` (over `LoadAsWritten`) | `DetektPluginSettings.NextLoadKeepsSaved` (over `Load`, used by `LoadState`) |
| src/main/kotlin/io/gitlab/arturbosch/detekt/config/DetektConfigStorageExtensions.kt:12-16 | `"".split(pathSeparator)` is `[""]`, so the `isNotEmpty` guard always holds and an empty setting yields one empty path | plugin path text `""`: the result is `[""]` when `""` exists, else none | no configured paths give no plugin jars | high, not executed | `DetektConfigStorageExtensions.EmptyTextGivesEmptyPath` (over `PluginsAsWritten`) | `DetektConfigStorageExtensions.EmptyTextGivesNoPlugins` (over `Plugins`) |
| src/main/kotlin/io/gitlab/arturbosch/detekt/idea/config/ui/MavenSearchDialog.kt:309-310 | `setRowSelectionInterval(0, 0)` fires the table's selection listener, which runs `onArtifactSelected` and clears the pending coordinate; the explicit call then runs it again without a target version | query `g:a:1.0` whose hit offers `2.0` and `1.0`: `2.0` ends selected and both `g:a:1.0` and `g:a:2.0` are resolved | the version of the query stays selected and is resolved once | medium, not executed | `MavenSearchDialog.ResultsAsWrittenLosesTargetVersion` (over `AfterResultsAsWritten`) | `MavenSearchDialog.ResultsSelectTargetVersion` (over `AfterResults`, used by `Dialog.ShowResults`) |
