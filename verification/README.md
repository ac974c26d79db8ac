# Verified models of the repository tooling

A Dafny 4.11 model of the build, CI and documentation scripts under `scripts/`, with proofs of what those
scripts are relied on for. `dafny verify dfyconfig.toml` checks the whole project.

| modules | script | what is modelled |
|---|---|---|
| `WorkerPool`, `Coverage` | `coverage-partitions.ts`, `publint-all.ts` | async workers on one shared cursor, and the coordinator around them, as state machines; theorems quantify over every interleaving and every child result |
| `TypeWalk`, `TypeReadings`, `WalkSoundness`, `WalkGuard`, `WalkTermination`, `NameResolution`, `ReExports`, `KeyPath`, `TypeClosure`, `ComposedSchemas` | `gen-config-catalog.ts` | the three-valued walk of a schema path over cyclic types, what a path means under every reading of what the walk cannot see, when the walk ends, name resolution and the re-export search, the path syntax, the worklist of pasted type names, the fold of composed schemas |
| `PackageGraph`, `PackageOrder`, `CiPlan`, `CiPlanMeaning` | `package-graph.ts`, `ci-plan.ts`, `ci-impact.ts` | layered topological order, reverse-consumer fixpoint, the fail-closed planner and the script that executes its plan |
| `MarkdownDestination`, `MarkdownProse`, `LinkRewrite` | `markdown.ts`, `project-doc-site.ts` | locating link destinations, deciding which lines show text, splicing rewritten links |
| `ArtifactStream` | `client-build-environment.ts` | the length-prefixed stream behind the artifact digest |
| `RelayRoutes`, `RelayDirectory` | `noise-product-channel.snapshot.ts` | two mutable stores specified by their whole call history |
| `ProjectFaces`, `ArchiveManifest`, `PairedBlocks` | `project-reference-faces.ts`, `archived-agent-notes.ts`, `paired-markdown-derivatives.ts` | a stack worklist over a config graph, an append-only manifest, a partition of code blocks |
| `Options`, `Sorting`, `Graph`, `Text`, `Decimal` | | shared definitions: stable sorting, reachability, JavaScript string order, numerals |

Loops of the scripts are loops here, and the two classes of the snapshot harness are classes. Recursion over a
shared mutable `seen` set becomes a function that takes the set and returns it. Concurrency is a step relation.
A Dafny `char` is a Unicode code point. `Text` orders strings by their UTF-16 code units, and the output tail is stated
over units of any kind; elsewhere positions count characters, and every character the scripts look for is one unit.

Where the code does less than its documentation or the format it reads promises, the model follows the code and
states exactly when the two agree:

- `compareCodepoints` promises code point order and compares UTF-16 code units: `Text.CodeUnitOrderIsCodePointOrder`.
- `destinationRange` cuts a bare destination at white space the CommonMark Spec allows in it (U+00A0, for one) and
  runs past one that ends in a backslash: `MarkdownDestination.BareDestinationRoundTrip`, with the two witnesses
  `NoBreakSpaceCutsDestination` and `FinalBackslashSwallowsTitle`.
- `lookupPath` promises never to say `missing` of what it cannot see through, but it skips methods, accessors and
  index signatures, compares quoted names with their quotes, and reads only the first of several merged interface
  declarations and no class. `WalkSoundness.LookupIsSound` gives the exact condition under which a `missing` is right,
  `WalkSoundness.UnspelledIsMissing` the failing family; `DeclaredMethodIsMissing`, `ShapesAreMissed`,
  `OtherPartIsMissing` and `ClassMemberIsMissing` give inputs.
- `lookupPath` is guarded against cyclic types, but not against cycles through indexed access:
  `WalkTermination.IndexedAliasDiverges`.
- `resolveTypeName` does not return on a cyclic import chain: `TypeClosure.ResolutionReturnsIffChainEnds`.
- `findExportedTypeDecl` takes the first declaration in the order of the re-exports, where modules prefer an explicit
  one: `ReExports.AnyRuleAgreesIffUnambiguous`, `ReExports.StarBeforeNamedWins`.
- `htmlCommentRanges` adds an index into a node's value to the node's offset, which is off once the parser has dropped
  indentation: `MarkdownProse.RangeIsRightIffNothingDropped`, `MarkdownProse.ListItemCommentEndsEarly`.
- `collectProjectReferenceFaceViolations` is documented by the aggregate the traversal began from and checks the face of
  each source config: `ProjectFaces.CleanReportKeepsFaceIff`, `ProjectFaces.CleanReportCrossesFaces`.
- `planCi` asks for the digest of the dependency graph and not for the graph. Its caller derives one from the other;
  in general an impacted plan covers its changed packages exactly when there is a graph: `CiPlan.CoversIffGraph`.
- `planCiImpact` rejects a plan exactly when an affected short name belongs to two packages:
  `CiPlan.ImpactPlanIsExecutable`.

## Model

| member | source | states |
|---|---|---|
| WorkerPool.NextKeepsInv | scripts/coverage-partitions.ts:214-231 | every claim, completion and retirement keeps: busy indexes are distinct and unfinished, every index below the cursor is busy or done, a worker stops only when the cursor is at the end |
| WorkerPool.ClaimsAreDistinct | scripts/coverage-partitions.ts:215-217 | in every interleaving no index is claimed by two claims |
| WorkerPool.EveryInterleavingIsSafe | scripts/coverage-partitions.ts:211-231 | at every moment at most as many commands run as there are workers, no index is claimed twice, and every index below the cursor was claimed |
| WorkerPool.StoppedPoolIsComplete | scripts/coverage-partitions.ts:213-234 | once all workers stop, exactly the indexes below n hold a result, each the one delivered by the worker that claimed that very index |
| WorkerPool.RunAllRefinesPool | scripts/publint-all.ts:204-215 | every run of the pool whose cursor overshoots the end is, step for step, a run of the shared-cursor pool |
| WorkerPool.RunAllIsComplete | scripts/publint-all.ts:204-222 | the publint pool never runs more than its concurrency and ends with every target's own result, so its missing-result error never fires |
| Coverage.NextKeepsInv | scripts/coverage-partitions.ts:206-273 | every step keeps: the launches started are exactly those the progress so far deserves, all but the running ones have an outcome, and each result slot holds its partition's last attempt |
| Coverage.RunKeepsInv | scripts/coverage-partitions.ts:206-273 | the invariant, the overlap rule, the listing rule and the verdict hold in every state of every run |
| Coverage.NoForbiddenOverlap | scripts/coverage-partitions.ts:226-268 | in every run, at every start: a first attempt joins first attempts only; retries, exclusive suites and the merge start when nothing runs; no launch happens twice |
| Coverage.ConcurrencyIsBounded | scripts/coverage-partitions.ts:228-231 | in every state of every run no more commands are open than `maxConcurrency`, nor than the shard has partitions |
| Coverage.ConcurrencyIsReached | scripts/coverage-partitions.ts:228-231 | for every accepted configuration some run has exactly the smaller of the two open, all of them first attempts |
| Coverage.OnlyCleanExitSucceeds | scripts/coverage-partitions.ts:423-425 | a command succeeds only by exiting with 0 without a signal or an error |
| Coverage.IsolatedExitMeans | scripts/coverage-partitions.ts:443-451 | an isolated worker exit is an exit with 1, without signal or error, whose output holds both pool messages and no report of failed tests; it is a failure |
| Coverage.RetriedExactlyAfterIsolatedExit | scripts/coverage-partitions.ts:232-241 | a partition runs a second time exactly when its first result was an isolated worker exit |
| Coverage.MergeStartsOnExactBlobSet | scripts/coverage-partitions.ts:263-268 | a merge was requested, and its start directly follows a listing that equals the expected blob set |
| Coverage.ExitCodeIsVerdict | scripts/coverage-partitions.ts:263-269 | a run that returns gives 0 exactly when every partition's last attempt, every exclusive suite and any requested merge succeeded |
| Coverage.ExclusiveSuitesRunInOneShard | scripts/coverage-partitions.ts:242-262 | of accepted shards with disjoint indexes covering all partitions that get past the exclusive phase, exactly one starts each exclusive suite |
| Coverage.RunsAreBounded | scripts/coverage-partitions.ts:206-273 | no run has more steps than the rank of its first state |
| Coverage.NeverStuck | scripts/coverage-partitions.ts:206-273 | until it returns or throws, a run can take another step that accepts the result or listing that arrives, whichever it is |
| Coverage.BlobCheckComparesSets | scripts/coverage-partitions.ts:371-382 | comparing the sorted lists is the same as the listing holding exactly the expected names |
| Coverage.ExpectedBlobsAre | scripts/coverage-partitions.ts:242-277 | one `partition-<index>.json` for each partition of the shard, and the two exclusive blobs exactly from the shard that owns partition 1 |
| Coverage.ExpectedBlobsAreDistinct | scripts/coverage-partitions.ts:371-375 | no two commands of an accepted configuration expect the same blob |
| Coverage.TailIsSuffixOfOutput | scripts/coverage-partitions.ts:418-421 | however the output is cut into chunks, the kept tail is the last 65,536 units of all of it |
| NameResolution.FindTypeDecl | scripts/gen-config-catalog.ts:134-140 | the first declaration of the name in the file, or none where there is none |
| NameResolution.TableIsResolution | scripts/gen-config-catalog.ts:284-308 | the names the walk resolves are exactly those `declForTypeName` finds, with the same declarations |
| NameResolution.DeclForIsFirst | scripts/gen-config-catalog.ts:284-308 | a resolved name is the first declaration in its file at the end of the first chain of re-exports, in depth-first order from the file that declares or imports it |
| NameResolution.OutOfReachHasNoDeclaration | scripts/gen-config-catalog.ts:284-308 | a name with a readable file to begin in is out of reach only when no chain of re-exports from there ends in a declaration |
| NameResolution.AbortsMeans | scripts/gen-config-catalog.ts:288-308 | resolution fails exactly where a relative import with its extension leads to an unreadable file or the search runs into one; an unreadable package entry is only out of reach |
| ReExports.FindIsFirst | scripts/gen-config-catalog.ts:255-279 | the search with its shared `seen` set gives the same answer as trying every chain without a repetition in order, so a hit is the first declaration in depth-first order |
| ReExports.LookForMeans | scripts/gen-config-catalog.ts:267-273 | a star passes every name on, a list the names it exports under their originals and no other |
| ReExports.SearchIsComplete | scripts/gen-config-catalog.ts:255-279 | through cycles and renamings: a hit is a declaration some re-export chain leads to, and the first in depth-first order; a miss means no chain leads to one, and reading fails only on a file some chain asks for |
| ReExports.AnyRuleAgreesIffUnambiguous | scripts/gen-config-catalog.ts:255-279 | any rule for choosing among the declarations that chains lead to agrees with the search exactly when they are one |
| ReExports.StarBeforeNamedWins | scripts/gen-config-catalog.ts:263-277 | a star before an explicit re-export of the name wins |
| TypeWalk.FindMember | scripts/gen-config-catalog.ts:336-344 | the first property whose source spelling is the name, and none only where none is spelled so |
| WalkGuard.ReferenceMeans | scripts/gen-config-catalog.ts:389-402 | the four wrappers pass a lookup to their argument, the two array types take an element step, other plain names are resolved and qualified ones unknown |
| TypeWalk.MoreFuelDecl | scripts/gen-config-catalog.ts:318-404 | an answer, once given, is the answer under any larger hop bound, `seen` set included |
| TypeReadings.FitsDecl | scripts/gen-config-catalog.ts:318-404 | each definite answer agrees with each reading that counts nothing overlooked, `found` with every reading, and for the unguarded walk the extreme readings force the answer |
| TypeReadings.DeclMayHave | scripts/gen-config-catalog.ts:318-404 | a path had under any reading is had by following finitely many references and declarations to a place that grants it |
| WalkSoundness.LookupIsSound | scripts/gen-config-catalog.ts:310-404 | for every type graph, path and starting `seen` set: `found` means the type has the path under every reading of what is out of reach or passed over; `missing` means it has it under no reading that leaves aside what the walk passes over, and is right for every reading exactly when no place the path leads to overlooks an unread signature, a class of the name, or another declaration of the name from which the path may be had |
| WalkSoundness.SoundWithinHops | scripts/gen-config-catalog.ts:318-404 | the same agreement for every bound on name hops that is at least what the walk used |
| WalkSoundness.UnguardedWalkIsExact | scripts/gen-config-catalog.ts:330-404 | without the cycle guard, `found` is given exactly when every reading has the path, `missing` exactly when no reading has it that trusts the walk, and no reading at all has it exactly when the answer is `missing` and nothing is overlooked |
| WalkSoundness.GuardOnlyWeakens | scripts/gen-config-catalog.ts:320-327 | whatever the set starts with, the guard gives the unguarded answer or `unknown` |
| WalkGuard.GuardIsSilentWithoutRepetition | scripts/gen-config-catalog.ts:320-327 | where no declaration comes up twice with as many steps left and none is in the starting set, the walk with the guard and the walk without it give the same answer and add exactly the pairs met |
| WalkGuard.ChangedAnswerMeansRepetition | scripts/gen-config-catalog.ts:320-327 | an answer the guard has changed means that a pair came up twice or was in the set |
| WalkGuard.StrayKeyIsMissing | scripts/gen-config-catalog.ts:318-404 | `server.tls.crt` over three nested interfaces is found missing |
| WalkSoundness.OverlookedIsGranted | scripts/gen-config-catalog.ts:335-366 | where something is overlooked, the reading that grants what is out of reach or passed over has the path |
| WalkSoundness.LegibleWorldsAreFullyRead | scripts/gen-config-catalog.ts:335-366 | where every member list holds properties spelled like the keys they declare and every interface name has one declaration and no class, nothing is overlooked, so every `missing` is right |
| WalkSoundness.UnspelledIsMissing | scripts/gen-config-catalog.ts:335-366 | an interface without heritage that spells no property like the step answers `missing`, rightly exactly when neither its list, nor a class, nor another declaration of its name may hold the step |
| WalkSoundness.ShapesAreMissed | scripts/gen-config-catalog.ts:338-341 | an interface that declares the name by an index signature, a method or a quoted name is said to miss it, wrongly |
| WalkSoundness.UndeclaredStepIsMissing | scripts/gen-config-catalog.ts:134-140 | of two merged interfaces that both lack the step, `missing` is right |
| WalkSoundness.OtherPartIsMissing | scripts/gen-config-catalog.ts:134-140 | a member of the second of two merged interfaces is called missing while a reading has it |
| WalkSoundness.ClassMemberIsMissing | scripts/gen-config-catalog.ts:134-140 | a member of a class beside an interface of its name is called missing while a reading has it |
| WalkSoundness.DeclaredMethodIsMissing | scripts/gen-config-catalog.ts:335-366 | `timer.set` on an interface of methods is called missing while a reading has it |
| WalkTermination.HaltDecl | scripts/gen-config-catalog.ts:320-327 | where the steps left at every declaration the path leads to are bounded, the unseen (declaration, remaining length) pairs bound the name hops of a walk |
| WalkTermination.LookupTerminates | scripts/gen-config-catalog.ts:318-404 | where some length bounds the steps left at every declaration the path can lead to, the walk ends, on cyclic types too |
| WalkTermination.RankedIsBounded | scripts/gen-config-catalog.ts:318-404 | ranks on the declarations in play that drop inside indexed-access targets and rise nowhere give such a length |
| WalkTermination.PlainWorldIsRanked | scripts/gen-config-catalog.ts:318-404 | without indexed access there are such ranks |
| WalkTermination.ForwarderIsRanked | scripts/gen-config-catalog.ts:382-388 | a config that forwards `LeafConfig['agents']` has such ranks, however cyclic the rest |
| WalkTermination.CircleIsBounded | scripts/gen-config-catalog.ts:382-388 | two interfaces that forward to each other through an indexed access have no ranks and still such a length |
| WalkTermination.IndexedAliasDiverges | scripts/gen-config-catalog.ts:382-388 | `type A = A['x']` never ends, whatever the hop bound |
| KeyPath.ParsePath | scripts/gen-config-catalog.ts:233-246 | the loops compute the steps of the key path's segments |
| KeyPath.RenderUndoesParse | scripts/gen-config-catalog.ts:232-246 | every key path is recovered from its steps, so no two paths are looked up alike |
| KeyPath.ParseUndoesRender | scripts/gen-config-catalog.ts:232-246 | parsing the text of well-formed steps gives those steps |
| KeyPath.ParsedIffWellFormed | scripts/gen-config-catalog.ts:232-246 | a step sequence comes from some key path exactly when it begins with a member and its names hold no dot and do not end in brackets |
| TypeClosure.ResolutionReadsChainEnd | scripts/gen-config-catalog.ts:147-172 | a name means what the last file of its chain of unaliased relative imports says: its declaration there, the import from a module, or nothing |
| TypeClosure.ResolutionReturnsIffChainEnds | scripts/gen-config-catalog.ts:147-172 | resolution fails to return exactly when the import chain is endless or asks for an unreadable file |
| TypeClosure.ImportCycleNeverReturns | scripts/gen-config-catalog.ts:166-170 | two files that import a name from each other make resolution go on forever |
| TypeClosure.PasteClosure | scripts/gen-config-catalog.ts:664-718 | the worklist ends; it ends without violations exactly when every name reached resolves, no name means two things and the config type is the package's own; then each name a pasted declaration mentions resolves from that declaration's file to the one paste or the one import under it, never both; only reached names are pasted or recorded, pastes once each |
| TypeClosure.FinishedIsCoherent | scripts/gen-config-catalog.ts:664-718 | a catalog without violations accounts for every name reached from the config type, at any depth |
| TypeClosure.ClashIsIncoherent | scripts/gen-config-catalog.ts:676-707 | every violation reported points at a real ambiguity or an unresolved name |
| ComposedSchemas.FoldVisits | scripts/gen-config-catalog.ts:737-750 | a fold contributes each newly seen package once, and all it composes is seen or reported |
| ComposedSchemas.FoldIsReachableKeys | scripts/gen-config-catalog.ts:733-751 | on cyclic compositions too, the keys are those of exactly the packages reachable through `schemaComposes`, each once, and the names reported are exactly the composed ones no package carries |
| PackageGraph.ComparatorIsTotal | scripts/package-graph.ts:77-83 | the comparator is a total preorder that ties only equal short names |
| PackageGraph.EntriesAreLatest | scripts/package-graph.ts:60-60 | the map holds one package a short name, the last one given |
| PackageGraph.PlaceLayer | scripts/package-graph.ts:68-72 | the inner loop appends the layer, marks its names placed and removes exactly those names |
| PackageGraph.TopoSort | scripts/package-graph.ts:59-75 | the nested loops give the layered order of the map's packages, and throw where that has none |
| PackageOrder.OrderIsByDepthThenGroup | scripts/package-graph.ts:63-83 | the order returned lists packages by depth, 0 without dependencies and else one more than the deepest dependency; at equal depth by the place of the group in the group order, unlisted groups last and by text, then by short name |
| PackageOrder.DepthsAreUnique | scripts/package-graph.ts:63-74 | dependencies leave no choice of depths |
| PackageOrder.ComparatorIsGroupOrder | scripts/package-graph.ts:77-83 | the comparator is that order of groups and short names |
| PackageOrder.TopologicalMeans | scripts/package-graph.ts:65-65 | an order is topological exactly when every dependency stands at an earlier place |
| PackageOrder.FirstGroupComesFirst | scripts/package-graph.ts:77-83 | of two packages without dependencies the one of the first listed group comes first |
| PackageGraph.LayeredIsTopological | scripts/package-graph.ts:59-75 | the order is a permutation with every dependency before its dependents |
| PackageGraph.SucceedsIffOrderExists | scripts/package-graph.ts:63-74 | an order is returned exactly when some dependency order exists; the sort throws exactly when some packages wait for each other or for a package outside the set |
| PackageGraph.LayeredForgetsOrder | scripts/package-graph.ts:59-83 | permuting the packages changes nothing in the result |
| PackageGraph.InputOrderIsForgotten | scripts/package-graph.ts:59-83 | for distinct short names the result depends only on the set of packages and the group order |
| Text.TextOrderIsTotal | scripts/package-graph.ts:91-93 | JavaScript string order is a total order in which only equal strings tie |
| Text.PrefixComesFirst | scripts/package-graph.ts:91-93 | a proper beginning of a string comes before it |
| Text.CodeUnitOrderIsCodePointOrder | scripts/package-graph.ts:85-93 | at the first difference the comparison follows code points exactly unless the smaller character is in U+E000..U+FFFF and the larger is beyond U+FFFF |
| CiPlan.AffectedIsLeast | scripts/ci-plan.ts:195-204 | the affected packages lie in every set that holds the direct ones and is closed under consumers |
| CiPlan.AffectedForgetsGraphOrder | scripts/ci-plan.ts:195-204 | listing the graph in another order affects the same packages |
| CiPlan.Sweep | scripts/ci-plan.ts:199-201 | one pass adds only affected packages of the graph and every package that depended on a member |
| CiPlan.ResolveReverseConsumers | scripts/ci-plan.ts:195-204 | the loop ends with exactly the affected packages, sorted, once each |
| CiPlan.OwningShorts | scripts/ci-plan.ts:188-193 | the names are exactly those of packages that own a changed path |
| CiPlan.ClassifyPath | scripts/ci-plan.ts:124-132 | a path adds exactly its matching rules' areas and escalations, or the unknown-path reason when no rule matches |
| CiPlan.ClassifyPaths | scripts/ci-plan.ts:123-133 | the areas are exactly those touched by some path, the reasons exactly those some path gives |
| CiPlan.CollectReasons | scripts/ci-plan.ts:104-146 | the reasons are exactly those that hold of the input |
| CiPlan.PlanCi | scripts/ci-plan.ts:100-186 | the plan is exhaustive exactly when the input demands it, its lists hold exactly the touched areas, owners, affected packages and changed sources, sorted, and its lanes follow from those |
| CiPlan.ImpactedPlanCoversPackages | scripts/ci-plan.ts:138-161 | in an impacted plan every changed path under `packages/` has an owner, and every owner is affected with all its transitive consumers |
| CiPlanMeaning.OwnsMeans | scripts/ci-plan.ts:188-190 | a package owns a path exactly when its directory is the path or is left when the path is cut at one of its slashes |
| CiPlanMeaning.ChangedPathsLieInPackages | scripts/ci-plan.ts:138-161 | in an impacted plan made with a graph every changed path under `packages/` lies in some package's directory |
| CiPlanMeaning.DirectPackagesHoldChanges | scripts/ci-plan.ts:188-193 | the direct packages are exactly those in whose directory a changed path lies |
| CiPlanMeaning.UnresolvedPathEscalates | scripts/ci-plan.ts:142-146 | a plan is escalated for an unresolved package path exactly when a changed path under `packages/` lies in no package's directory |
| CiPlanMeaning.SeparatePackagesShareNoPath | scripts/ci-plan.ts:188-190 | two packages, neither in the other's directory, are never changed by one path |
| CiPlanMeaning.NeighbourIsNotOwned | scripts/ci-plan.ts:142-146 | a package does not own what lies in a neighbour whose directory name it begins |
| CiPlanMeaning.OtherVersionsAreInvalid | scripts/ci-plan.ts:106-115 | a risk catalog is reported invalid exactly when its format version is not 1 |
| CiPlanMeaning.TwoAreasEscalate | scripts/ci-plan.ts:135-136 | changes escalate across domains exactly when two rules they match name different areas, neither of them `area/infra` |
| CiPlan.ImpactedPlanHasGraph | scripts/ci-plan.ts:258-259 | with a digest exactly when there is a graph, no impacted plan lacks the graph |
| CiPlan.CoversIffGraph | scripts/ci-plan.ts:138-161 | an impacted plan covers a changed path under `packages/`, with an owner and all consumers of every owner affected, exactly when it was made with a graph |
| CiPlan.NoGraphAffectsNothing | scripts/ci-plan.ts:138-149 | without a graph no plan, whatever its input, names a direct or affected package |
| CiPlan.DigestWithoutGraphCoversNothing | scripts/ci-plan.ts:113-149 | with a digest and no graph, a draft with one matched path under `packages/` gets an impacted plan that affects no package |
| CiPlan.FewerPathsNeedNoMore | scripts/ci-plan.ts:121-161 | planning a non-empty part of the paths of an impacted plan is impacted too, with no further package and no further lane |
| CiPlan.LanesFollowLevel | scripts/ci-plan.ts:156-161 | an exhaustive plan runs every lane but draft-impact, all required in a merge group; an impacted one runs draft-impact exactly when a package is affected, and each further lane exactly when a changed path calls for it |
| CiPlanMeaning.RequiredLanes | scripts/ci-plan.ts:60-76 | outside merge groups the native Windows and the Electron lane are observational, and every other lane of any plan is required |
| CiPlanMeaning.ElectronLaneFollowsItsDirectory | scripts/ci-plan.ts:215-217 | an impacted plan runs the Electron lane exactly for changes in the Electron runtime's directory |
| CiPlan.PlanForgetsPathOrder | scripts/ci-plan.ts:101-161 | listing the changed paths in another order or twice leads to the same level, reasons, areas, direct and affected packages, sources and lanes |
| CiPlan.OneDirectoryEach | scripts/ci-impact.ts:37-44 | affected packages of the graph have at least one directory each, and exactly one just when no affected short name repeats |
| CiPlan.ImpactPlanIsExecutable | scripts/ci-impact.ts:29-60 | a plan with the draft-impact lane is accepted exactly when no affected short name is carried by two packages; the command then names exactly the affected packages' directories, one each, and the changed sources that still exist, both sorted |
| MarkdownDestination.SkipWhitespace | scripts/markdown.ts:84-88 | everything from the start to the position reached is white space, and what stands there is not |
| MarkdownDestination.SpacesAre | scripts/markdown.ts:86-86 | white space is what ECMAScript's `\s` matches, character by character |
| MarkdownDestination.LabelEnd | scripts/markdown.ts:90-104 | the loop finds the bracket that closes the caption, or reports none |
| MarkdownDestination.DestinationRange | scripts/markdown.ts:106-140 | the loops give the located range, and throw exactly where there is none |
| MarkdownDestination.AngleDestinationRoundTrip | scripts/markdown.ts:106-126 | for links, images and definitions, every balanced caption and every angle-bracketed destination, the range selects exactly the destination, whatever follows |
| MarkdownDestination.BareDestinationRoundTrip | scripts/markdown.ts:106-140 | for every balanced caption and every bare destination of the CommonMark Spec, with or without a title, the range selects exactly the destination if and only if it has no `\s` character outside parentheses and no final backslash before further text |
| MarkdownDestination.FinalBackslashSwallowsTitle | scripts/markdown.ts:127-138 | in `[a](b\ "t")` the range runs over the title |
| MarkdownDestination.NoBreakSpaceCutsDestination | scripts/markdown.ts:135-137 | a destination holding U+00A0 is cut there |
| MarkdownProse.CommentsIn | scripts/markdown.ts:207-215 | the comments of an HTML node are apart and in order, each runs through the first closing mark after its opening or to the end, and no opening mark lies outside them |
| MarkdownProse.StandsAtMeans | scripts/markdown.ts:209-211 | a mark stands at a position exactly when the text is something of that length, the mark and something more |
| MarkdownProse.MarksDelimitComments | scripts/markdown.ts:209-213 | `<!--` to the first `-->` is one comment, and to the end where there is none |
| MarkdownProse.LineSpansMean | scripts/markdown.ts:220-231 | a column is outside a line's ranges exactly when its source offset is outside every comment, and a line has none exactly when no comment touches it, empty lines included |
| MarkdownProse.CommentRanges | scripts/markdown.ts:218-234 | exactly the touched lines get ranges, at their own offsets |
| MarkdownProse.HasRenderedText | scripts/markdown.ts:238-248 | the cursor sweep keeps a line exactly when it has no ranges or some non-white character lies outside all of them, overlapping ranges included |
| MarkdownProse.ProseLines | scripts/markdown.ts:255-271 | given comment offsets, the lines kept, in order, are exactly those outside code blocks that no comment touches or that show a non-white character outside every comment |
| MarkdownProse.ProseLinesOf | scripts/markdown.ts:203-271 | from the HTML nodes on: one list of comments for each node at the offsets the script computes, and exactly the lines that show text outside all of them |
| MarkdownProse.RangeIsRightIffNothingDropped | scripts/markdown.ts:205-216 | the computed range is where the comment stands in the source exactly when the parser dropped no character of the node before the comment's end |
| MarkdownProse.VerbatimNodesGiveComments | scripts/markdown.ts:205-216 | for a node whose value is its source slice every range stands on a comment of the source |
| MarkdownProse.ListItemCommentEndsEarly | scripts/markdown.ts:205-216 | a comment over two lines of a list item gets a range that ends early, and its second line is kept |
| LinkRewrite.ApplyReplacements | scripts/project-doc-site.ts:198-202 | the loop splices the replacements in falling order of start |
| LinkRewrite.BackToFrontIsSimultaneous | scripts/project-doc-site.ts:198-202 | splicing ordered disjoint ranges from the back equals substituting all of them at once |
| LinkRewrite.RewriteIsSimultaneous | scripts/project-doc-site.ts:161-202 | for pairwise disjoint ranges collected in any order, the result is the left-to-right substitution |
| LinkRewrite.RewriteForgetsCollectionOrder | scripts/project-doc-site.ts:161-202 | the result does not depend on the order replacements were collected in |
| LinkRewrite.OutsideTextIsKept | scripts/project-doc-site.ts:198-202 | every character outside the ranges is kept, displaced only by the growth of the ranges before it |
| LinkRewrite.EqualStartsDependOnOrder | scripts/project-doc-site.ts:199-201 | two insertions at one start come out in either order, so distinct starts are needed |
| ArtifactStream.FeedArtifacts | scripts/client-build-environment.ts:330-337 | the hash object ends up fed with the encoding of the file list |
| ArtifactStream.FieldIsLengthColonData | scripts/client-build-environment.ts:333-336 | a field is the byte length in decimal without a leading zero, a colon and the bytes |
| ArtifactStream.ReadFieldUndoesField | scripts/client-build-environment.ts:333-336 | a length-prefixed field is read back with whatever follows it |
| ArtifactStream.DecodeUndoesEncode | scripts/client-build-environment.ts:331-337 | the stream decodes to the very list of paths and contents, so distinct lists give distinct streams |
| ArtifactStream.AcceptedIffUnchanged | scripts/client-build-environment.ts:316-339 | with an injective hash a record is accepted exactly when file list and contents are unchanged |
| RelayRoutes.RouteStore.RotateRoute | scripts/noise-product-channel.snapshot.ts:269-276 | the store keeps saying what the history says; the revision returned is the history's |
| RelayRoutes.RouteStore.IssueAuthority | scripts/noise-product-channel.snapshot.ts:278-288 | likewise; a revision is returned exactly when the route is live |
| RelayRoutes.RouteStore.Register | scripts/noise-product-channel.snapshot.ts:290-305 | likewise; a pairing reopens a dead route without its old authorities |
| RelayRoutes.RouteStore.RevokeOne | scripts/noise-product-channel.snapshot.ts:317-323 | likewise; an unknown route answers 1 and stays unknown |
| RelayRoutes.RouteStore.RevokeAll | scripts/noise-product-channel.snapshot.ts:325-330 | likewise; the route is dead until reopened |
| RelayRoutes.RouteStore.Authorize | scripts/noise-product-channel.snapshot.ts:307-315 | succeeds exactly when the digest's latest installation on the route used that endpoint and no later rotation, revocation or matching credential revocation removed it; the revision and selector are the history's |
| RelayRoutes.HoldsSnoc | scripts/noise-product-channel.snapshot.ts:269-330 | how one more call changes who holds which authority, for a history of any length |
| RelayRoutes.HoldsIsUnique | scripts/noise-product-channel.snapshot.ts:263-267 | a digest holds at most one authority on a route |
| RelayRoutes.HoldsNeedsLive | scripts/noise-product-channel.snapshot.ts:307-330 | only live routes have authorities, whatever was called |
| RelayRoutes.RevisionsNeverDecrease | scripts/noise-product-channel.snapshot.ts:269-330 | no sequence of calls lowers a route's revision |
| RelayRoutes.LosingAuthorityRaisesRevision | scripts/noise-product-channel.snapshot.ts:269-330 | a call that leaves a digest without its authority raises the revision |
| RelayDirectory.Directory.RegisterEntry | scripts/noise-product-channel.snapshot.ts:342-342 | the directory keeps holding exactly what the history says it serves |
| RelayDirectory.Directory.RefreshEntry | scripts/noise-product-channel.snapshot.ts:343-347 | likewise; true exactly when the served entry has the token, otherwise nothing changes |
| RelayDirectory.Directory.UnregisterEntry | scripts/noise-product-channel.snapshot.ts:348-351 | likewise |
| RelayDirectory.Directory.Locate | scripts/noise-product-channel.snapshot.ts:352-354 | finds the entry the history says is served, or nothing when none is |
| RelayDirectory.ServesSnoc | scripts/noise-product-channel.snapshot.ts:342-351 | how one more call changes the entry served under a key |
| RelayDirectory.ServesIsUnique | scripts/noise-product-channel.snapshot.ts:334-342 | a key serves at most one entry, and an entry of that key |
| RelayDirectory.RegistrationIsServed | scripts/noise-product-channel.snapshot.ts:342-342 | a registration is served under its own route and attachment and changes no other entry |
| RelayDirectory.SupersededCallChangesNothing | scripts/noise-product-channel.snapshot.ts:343-351 | a refresh or unregister with a superseded token changes no entry |
| ProjectFaces.FaceIffNearestNamed | scripts/project-reference-faces.ts:88-103 | a config's face is that of the nearest named config up its `extends` chain, on cyclic chains too |
| ProjectFaces.NamedFaceMeans | scripts/project-reference-faces.ts:94-97 | the last part of the path, or being one of the two base configs, names a face |
| ProjectFaces.ParentMeans | scripts/project-reference-faces.ts:100-101 | the parent is the extended config, where both exist |
| ProjectFaces.SplitRootIsInnermost | scripts/project-reference-faces.ts:65-71 | the split root found contains the target and lies inside every other split root that does |
| ProjectFaces.SplitRootMeans | scripts/project-reference-faces.ts:116-121 | the split root of a path is the project directory around it that lies within every other one around it |
| ProjectFaces.LeafHasFace | scripts/project-reference-faces.ts:50-50 | the leaf of a face is `tsconfig.host.json` or `tsconfig.client.json` of the root, and has that face |
| ProjectFaces.WrongEdgeMeans | scripts/project-reference-faces.ts:42-58 | a reference into a split project is wrong exactly when the referring config has no face or the reference is not the file of that face's name in the innermost split root |
| ProjectFaces.OutsideReferenceIsRight | scripts/project-reference-faces.ts:42-59 | a reference outside all project directories is right |
| ProjectFaces.ScanReferences | scripts/project-reference-faces.ts:40-59 | a config's references divide into its wrong edges and the targets to follow |
| ProjectFaces.CollectViolations | scripts/project-reference-faces.ts:30-63 | the violations are exactly the wrong-face edges of configs reachable along conforming edges, each once, whatever the stack order |
| ProjectFaces.CleanReportMeansCleanGraph | scripts/project-reference-faces.ts:30-63 | with no violation, every edge of the full reachable graph enters its innermost split root through the leaf of its source's face |
| ProjectFaces.CleanReportKeepsFaceIff | scripts/project-reference-faces.ts:20-63 | with no violation, the traversal from an aggregate enters split roots only through leaves of the aggregate's face exactly when every config on the way that enters one has that face |
| ProjectFaces.CleanReportCrossesFaces | scripts/project-reference-faces.ts:40-59 | a Host aggregate reaches, without a violation, a config that enters a split root through its Client leaf |
| ArchiveManifest.ExtendManifest | scripts/archived-agent-notes.ts:172-190 | sealed entries stay, every other artifact is sealed, the errors are exactly the missing and the changed artifacts, and the additions are the unsealed artifacts in collation order |
| ArchiveManifest.ValidateExtension | scripts/archived-agent-notes.ts:57-68 | the errors are exactly the lost and the changed entries, so there are none exactly when the baseline is preserved |
| ArchiveManifest.LaterManifestsPreserveEarlier | scripts/archived-agent-notes.ts:57-68 | over any run of extensions every later manifest passes the check against every earlier one |
| ArchiveManifest.CleanStepCoversArtifacts | scripts/archived-agent-notes.ts:172-190 | a step is error-free exactly when all sealed artifacts are present and unchanged; the manifest then covers exactly the artifacts |
| ArchiveManifest.RepeatedStepAddsNothing | scripts/archived-agent-notes.ts:172-190 | repeating a step changes nothing and adds nothing |
| ArchiveManifest.TamperingStaysVisible | scripts/archived-agent-notes.ts:178-182 | an artifact lost or changed since any earlier sealing makes every later step report errors |
| PairedBlocks.GroupByDoc | scripts/paired-markdown-derivatives.ts:35-41 | each document is mapped to its own blocks in scan order |
| PairedBlocks.SiblingMeans | scripts/paired-markdown-derivatives.ts:15-18 | `x.zh.md` has the sibling `x.md`, and no other document has one |
| PairedBlocks.DerivativeDocs | scripts/paired-markdown-derivatives.ts:43-55 | the documents found are exactly those whose blocks match their unsuffixed sibling's one for one |
| PairedBlocks.Partition | scripts/paired-markdown-derivatives.ts:30-63 | the two sides are the blocks of the other and of the derivative documents |
| PairedBlocks.EveryBlockOnce | scripts/paired-markdown-derivatives.ts:57-62 | every block goes to exactly one side |
| PairedBlocks.OrderIsKept | scripts/paired-markdown-derivatives.ts:57-62 | each side is a subsequence of the scan order |
| PairedBlocks.DerivativeHasPrimary | scripts/paired-markdown-derivatives.ts:16-55 | every derivative block has a primary block with its fingerprint at its position in some document down the chain of siblings, through repeated `.zh` suffixes |

## Left out

- WalkTermination.LookupTerminates: one direction only. The guard compares only the number of remaining steps, so it can also end walks whose paths are unbounded; the model shows a family that does not end and gives no exact condition.
- WalkSoundness.LookupIsSound: a step counts as naming a member by its source text, so a schema key whose own text holds quotes is taken for the quoted name; and what the walk passes over adds to what heritage gives and never hides it.
- TypeWalk reads every type operator as `readonly`, ignores type parameters, and takes the wrapper and array names as the globals the script takes them for. Declarations merged from other files are not modelled.
- NameResolution.TableIsResolution: a read failure that aborts the script leaves the name out of the table. Whether a declaration carries an `export` modifier is not modelled, as the script does not look.
- CiPlan.PlanCi: the order of the reasons, the evidence key and the reason texts of lanes are not modelled; a rule whose escalation repeats a built-in reason's text is kept apart from it.
- CiPlan treats risk-rule globs and lane patterns as arbitrary predicates on paths, and leaves out Git, the command line and the GitHub outputs.
- Coverage: environment parsing, command lines, removal of a blob before its retry, cleanup and console output. The child runner always returns a result, as the default runner does. A worker's completion and its next claim are separate steps, which allows more interleavings than the event loop has.
- MarkdownDestination, MarkdownProse and LinkRewrite: the Markdown parser. Node texts, comment nodes, code-block lines and replacement values are inputs. Captions whose code spans hold unbalanced brackets are outside the printed grammar.
- ArtifactStream: listing and reading files, and parsing the record. The hash is any injective function; paths are their UTF-8 bytes.
- RelayRoutes and RelayDirectory: promises, and the hexadecimal form of digests, which are values here. The key `route:attachment` is a pair, so two pairs whose texts collide stay apart. `list`, listeners and publication are left out.
- ProjectFaces: reading JSON and resolving paths; configs come with absolute resolved references in POSIX form. Violations are identified by config and reference, without their texts and the final sort of those texts.
- ArchiveManifest: validation of artifact names and headers, manifest parsing, and keys inherited from the object prototype. The locale's collation is any total preorder.
- TypeClosure: violations are counted, not worded. A resolution failure may be counted once where the script prints two lines. Documentation checks on pasted members are left out.
- PackageGraph: reading manifests, and the Mermaid helpers.
- The remaining scripts, whose behaviour rests on the TypeScript checker, on curated tables or on process and network calls.
