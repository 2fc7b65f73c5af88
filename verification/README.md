# Architecture linting, modelled and proved

A model in Dafny of a Go library that checks a project's architecture: a team describes its layers
and layout, rules read the loaded packages and report violations, a runner merges the reports. The
project proves what the library's local checks and hand-written loops amount to: statements about
every import chain, every package graph, every statement tree, every format string and every list of
violations.

`dafny verify dfyconfig.toml` checks everything. Code that updates state is modelled by methods and
classes and proved against specification functions; the laws are lemmas about those functions.

| module | what it models |
|---|---|
| `Architecture`, `CycleOrder` | the architecture description, its validation, the depth-first search for a direction cycle |
| `ProjectContext` | path normalization, exclusion, the context a rule reads |
| `Classifiers`, `PackageKinds` | the three ways an import path is sorted into kind, domain and sublayer, and every case of them by the form of the path |
| `DependencyRules`, `Isolation`, `LayerDirection` | the import rules and what they imply for import chains |
| `ImportVerdicts` | each verdict of the two import rules, by where the ends of an import are |
| `ImportChains` | what the two import rules imply together |
| `BlastRadius` | the reverse reachability count, quartiles and the outlier threshold |
| `Runner`, `RunnerLaws` | the run pipeline and its conservation and determinism laws |
| `RunnerOutcomes` | what a run reports, read from the outcomes of its rules |
| `JsonReport` | the JSON report of a run |
| `LogicBudget`, `BudgetLaws` | the function measure, the error-return discount and its soundness |
| `BudgetShape` | what is measured and what is discounted, read off the syntax |
| `FmtDirectives`, `FmtSyntax` | the scanner for `%w` arguments, and what it makes of each character |
| `FmtReference`, `FmtAgreement` | package fmt's own scan of any text, and exactly when the two agree |
| `FmtNumbering`, `FmtPrinted` | the documented grammar of directives and its numbering, against both scans |
| `FormatGaps` | the formats that are accepted although they do not carry the checked error |
| `TypeWalk` | the walk over possibly cyclic types in signatures |
| `CaseNames`, `CasePlaces`, `SnakeFiles` | snake/Pascal conversion, where each character goes, and the file name rule |
| `Digraph`, `Sorting`, `GoStrings`, `Options` | graphs and walks, stable sorting, Go string operations, optional values |

## What the proofs found

Where a promise does not hold of the code as it stands, the model keeps the code, and a lemma says
exactly when the promise holds.

- **The documented import matrix is stricter than the code** (README.md:378-386 against
  rules/dependency/isolation.go:97-269). Seven cells marked "No" pass: composition root and transport
  imported from orchestration, from commands and from shared packages, and transport imported from
  the composition root. Everything else in the matrix is what the code does; without RequireAlias
  commands and orchestration may also import domain sub-packages
  (`Isolation.DecideIffDocumented`, `ImportRuleIffDocumented`).
- **Forbidden direct imports can be had in two steps.** Transport may not import an unclassified
  package, nor a domain a transport package, but each may through a shared package. Domain and
  orchestration boundaries are the ones that hold transitively (`Isolation.AcceptedPathIffConfined`).
  In a layout without a shared directory transport leads to transport only, and domains still reach
  transport through unclassified packages (`UnsharedPathIffConfined`).
- **An internal root of `cmd`, or below it, turns isolation off.** Every internal package is then
  handled as a command before its kind is looked at (`Isolation.InternalIsCommandIff`,
  `CmdRootDisablesIsolation`), and one domain may import another unreported (`CmdRootProject`); the
  transitive theorem holds for every other root.
- **Layer descent holds within sublayers only.** Through sublayer packages accepted imports lead from
  one sublayer to another exactly when the allowed directions do by way of layers that packages can
  be in, those of one or two segments (`LayerDirection.SublayerPathIff`, `DomainIsPlaceable`);
  through the domain root, which every declared sublayer may import and whose own imports are not
  judged, they lead from every sublayer to every other one (`RootConnectsAll`, and `RootClosesLoop`
  for a clean project that does). Chains that avoid both roots descend, whatever else the project
  imports (`ImportChains.ChainDescends`).
- **A run is independent of rule iteration order exactly when nothing ties.** Two violations with the
  same file, line, rule and message, or two meta violations with the same rule and message, that
  differ elsewhere make the output depend on the order (`RunnerLaws.OrderIndependentIff`).
- **More dependents per import, exactly when the import is not on a cycle**
  (`BlastRadius.ImportRaisesDependentsIff`).
- **The structural and transaction classifiers disagree**, for every vocabulary, exactly on paths
  below a declared layer that has declared nested layers but in none of them, and on paths in a
  declared layer of three or more segments (`Classifiers.LongestMatchAgreesIff`).
- **The scanner and package fmt read some directives differently.** For every text of a directive
  they find the same verb and give it the same existing argument exactly when
  (`FmtAgreement.ReadAlikeIff`): an index right after "%" stands directly before a `*` width or the
  verb, without flags; an index behind flags is not followed by a digit or a dot, nor one behind the
  precision's dot by a digit; a `[` that is no index is not taken for the verb; no number is too
  large; all indexes are in range; and a `*` width's index right after "%" is not kept for the verb.
  Directives with a `%` verb must also leave the same argument next (`AllAlikeAgree`). So calls are
  discounted that wrap another error, or none: `%[1]*w`, `%[1]5w`, `%[9]*[1]w`, `%[0]d %w`,
  `%[2]%%w`, each for every index and width (`FormatGaps`).
- **Some literals count as zero values that are not**: an empty slice or map literal, which is not
  nil, and `0`, `""`, `false` or an empty struct literal where the result is an interface
  (`BudgetLaws.FalseZeroIsDiscounted`).
- **The discount is sound exactly where neither happens.** Whatever the names and expressions in a
  discounted return stand for, it propagates the checked error and nothing else, exactly when it has
  no such literal and package fmt wraps the checked name and no other possible error
  (`BudgetLaws.DiscountSoundIff`); it does whenever the formats are read alike (`AlikeCarries`).
- **Snake and Pascal conversion invert each other** on lower-case words exactly when no one-letter
  word runs into its successor (`CaseNames.RoundTripIff`).
- **The suggested rename may fail the very rule that suggests it.** For every file name it passes
  exactly when each dot-separated segment consists of letters, digits and underscores and does not
  come out empty or as a mere `_test` (nor the last of several as `_test_test`), and the extension
  has no upper-case letter
  (`SnakeFiles.RenameAcceptedIff`). For `my-file.go` the suggestion is the name itself
  (`HyphenIsNotConverted`).
- **The cycle search is started in sorted order of the direction keys**, not in the order of the
  declared sublayers that its comment names (core/architecture_validate.go:145-146 against 188-194).
  In any order the reported cycle is the one found from the first source that leads to a cycle,
  whatever was explored before, so two orders agree exactly when these two answers do
  (`CycleOrder.FirstCycleIsFirstAnswer`, `OrdersAgreeIff`, `SourceOrderMatters`).
- **Not every path can be spelled freely.** All the spellings of a path normalize to it exactly when
  it is canonical, empty, or has a backslash and so no spelling; `./` does not reduce to `.`
  (`ProjectContext.AllSpellingsNormalizeIff`).
- **The exclude pattern `./...` excludes nothing**, although patterns ending in `...` are meant to take
  their descendants: they do exactly when the normal form has something before the dots
  (`ProjectContext.TakesDescendantsIff`, `RootPatternExcludesNothing`).

## Model

| member | source | states |
|---|---|---|
| Architecture.FindDirectionCycle | core/architecture_validate.go:147-202 | for every direction map: terminates, returns no cycle exactly for an acyclic graph, and a returned cycle is a closed walk along allowed directions, the first one that the search from the sorted keys meets |
| Architecture.CycleSearch.Dfs | core/architecture_validate.go:156-186 | a search below one white node either reports a closed walk or restores the stack with the node and all that was done black; cycle and colors are those of the pure depth-first search |
| Architecture.CycleSearch.ExtractCycle | core/architecture_validate.go:162-176 | a gray target is always found on the stack, so the negative start is dead, and the slice from there closes a walk |
| Architecture.CycleSearch.Enter | core/architecture_validate.go:157-159 | painting gray and pushing keeps the search invariant: gray nodes are the stack, the stack is a path, black nodes are closed and on no cycle |
| Architecture.CycleSearch.Leave | core/architecture_validate.go:183-184 | popping and painting black keeps the invariant once all targets are black |
| CycleOrder.FirstCycleIsFirstAnswer | core/architecture_validate.go:188-201 | for every order of the sources the reported cycle is the one found from the first source that leads to a cycle, whatever was explored before |
| CycleOrder.OrdersAgreeIff | core/architecture_validate.go:188-201 | two orders of the sources report the same exactly when their first leading sources have the same answer |
| CycleOrder.LeadingAnswers | core/architecture_validate.go:156-186 | the search from one source finds a cycle exactly when the source leads to one |
| CycleOrder.ExploreAlike | core/architecture_validate.go:156-186 | what was explored before, without a cycle, does not change what is found |
| CycleOrder.ExploreHarmless | core/architecture_validate.go:156-186 | exploring a node that leads to no cycle finds none and touches no node that does |
| CycleOrder.ExploreNothing | core/architecture_validate.go:156-186 | a search without a cycle started at a node that leads to none |
| CycleOrder.SourceOrderMatters | core/architecture_validate.go:145-200 | with two separate cycles the sorted order and another order of the sources report different ones |
| Architecture.CycleSearch.AllDoneIsAcyclic | core/architecture_validate.go:188-201 | a graph whose sources are all black has no cycle |
| Architecture.Validate | core/architecture_validate.go:28-136 | the reports are exactly the complaints that hold, with the search's first cycle for all cycles, and there are none exactly for a valid architecture |
| Architecture.NoComplaintIffValid | core/architecture_validate.go:28-136 | the fourteen complaints and the cycle together amount to one statement of what a valid architecture is |
| Architecture.CheckSublayers | core/architecture_validate.go:34-43 | empty and repeated sublayers are reported, the known set is the declared non-empty ones |
| Architecture.CheckDirections | core/architecture_validate.go:52-61 | exactly the unknown sources and targets of Direction are added |
| Architecture.CheckContracts | core/architecture_validate.go:64-83 | exactly the unknown port and contract layers and the ports outside the contracts are added |
| Architecture.CheckKeySets | core/architecture_validate.go:86-112 | exactly the unknown or empty map keys are added |
| Architecture.CheckTypePatterns | core/architecture_validate.go:115-123 | exactly the empty and unknown type pattern directories are added |
| Digraph.AcyclicIffRanked | core/architecture_validate.go:125-129 | a layer graph is acyclic exactly when some numbering drops along every edge |
| Digraph.AcyclicHasRank | core/architecture_validate.go:125-129 | the number of reachable layers is such a numbering |
| ProjectContext.NormalizeMatchPath | core/utils.go:20-31 | the trimming loop computes the normalization that the spelling lemmas are about |
| ProjectContext.NormalizeIffSpelling | core/utils.go:20-31 | a string normalizes to a canonical path exactly when it spells it with an optional leading slash, `./`s, trailing slash or backslashes |
| ProjectContext.AllSpellingsNormalizeIff | core/utils.go:20-31 | for every path: all its spellings normalize to it exactly when it is canonical, empty or unspellable |
| ImportVerdicts.BackslashIsSlash | core/utils.go:20-31 | a backslash anywhere in a path is as good as a slash |
| ImportVerdicts.CanonicalUnchanged | core/utils.go:20-31 | a canonical path is left as it is |
| ProjectContext.RootIsNotCanonical | core/utils.go:20-31 | the project root is not canonical: `./` and `.` stay apart |
| ProjectContext.IsExcluded | core/context.go:99-107 | a path is excluded exactly when some pattern matches its normalized form |
| ProjectContext.ResolveContextDefaults | core/context.go:42-61 | a missing module path or root is the first one any package offers, each independently of the other although the loop stops early |
| ProjectContext.NewContext | core/context.go:26-40 | defaults are resolved, patterns are normalized once each, an empty internal root becomes "internal", nothing else changes |
| ProjectContext.RecursiveExcludeIsSegmentPrefix | core/context.go:109-115 | in any spelling of pattern and path, a recursive exclude is a prefix test on path segments |
| ProjectContext.TakesDescendantsIff | core/context.go:109-115 | a pattern ending in `...` takes everything below what it takes exactly when something precedes the dots |
| ProjectContext.RootPatternExcludesNothing | core/context.go:99-115 | the pattern for the whole project, in any spelling, excludes nothing but a path named `...` |
| ProjectContext.RootPatternSpelled | core/context.go:109-115 | `./...` and `/./...` are such spellings |
| ProjectContext.PlainExcludeIsEquality | core/context.go:109-115 | any other pattern, in any spelling, excludes exactly one path |
| ProjectContext.RecursiveExcludeClosed | core/context.go:109-115 | a recursive exclude takes every descendant of a path it takes |
| GoStrings.SameOrUnderIsSegmentPrefix | rules/dependency/isolation.go:386-392 | the equal-or-slash-prefix test on strings is a prefix test on segment lists, for all strings |
| Classifiers.UnderDirIsSegmentPrefix | rules/dependency/isolation.go:386-392 | directory classification never confuses siblings with a longer name |
| Classifiers.LayerIffDeclaredSublayer | rules/tx/boundary.go:224-277 | below a domain the transaction rule's layer is the dependency rules' sublayer if that is declared and none otherwise, for every vocabulary |
| Classifiers.KnownSublayerForRel | rules/structural/repo_file_interface.go:215-225 | returns the longest declared sublayer that the path is in or below |
| Classifiers.DomainSublayerForPackage | rules/structural/repo_file_interface.go:190-213 | the same for the part of an import path below a domain, and nothing elsewhere |
| Classifiers.LongestMatchAgreesIff | rules/structural/repo_file_interface.go:190-225 | for every vocabulary, longest match and nested layer agree exactly on paths that are neither shadowed nor in a layer of three or more segments, and what each says on shadowed ones |
| Classifiers.PackageLayerAgreesIff | rules/tx/boundary.go:224-277 | the same equivalence for whole import paths |
| Classifiers.DeepLayerDisagrees | rules/tx/boundary.go:252-267 | any layer of three or more segments on its own is found by one classifier and not by the other |
| PackageKinds.OutsideInternal | rules/dependency/isolation.go:302-305 | outside the internal tree no package has a kind |
| PackageKinds.DirectoryKinds | rules/dependency/isolation.go:306-322 | for every path: shared, composition root, transport and orchestration exactly in their directories, the earlier directory winning, and the domain kinds exactly elsewhere |
| PackageKinds.OutsideDomains | rules/dependency/isolation.go:324-384 | elsewhere and not below the domain directory there is none |
| PackageKinds.DomainRootPlace | rules/dependency/isolation.go:324-384 | the package right below the domain directory is the root of the domain of its name |
| PackageKinds.OneBelowDomain | rules/dependency/isolation.go:324-384 | one segment further down is a sublayer package of that name, declared or not |
| PackageKinds.DeepBelowDomain | rules/dependency/isolation.go:324-384 | deeper down the first two segments name the sublayer exactly if anything is declared below the first one, and otherwise the first one does |
| PackageKinds.FlatKinds | rules/dependency/isolation.go:336-345 | without a domain directory a package is in the sublayer of its first segment exactly if that is declared |
| PackageKinds.FlatLayer | rules/tx/boundary.go:224-250 | the transaction rule reads flat layouts the same way |
| PackageKinds.NoLayer | rules/tx/boundary.go:224-239 | it sees no layer outside domains and in a domain root |
| PackageKinds.LayerBelowDomain | rules/tx/boundary.go:224-277 | below a domain it sees the first segment or the first two, if declared, and only the two where anything is declared below the first |
| PackageKinds.DomainRelativeIff | rules/structural/repo_file_interface.go:190-213 | the structural rule reads exactly what is behind module, internal root, domain directory and a domain segment |
| Isolation.ImportMatrix | rules/dependency/isolation.go:121-269 | the ordered checks amount to one matrix of accepted kinds, each refusal under the boundary it crosses |
| Isolation.DecideIffDocumented | README.md:378-386 | every cell of the documented matrix, commands and composition root included: accepted exactly if documented, one of seven further cells, or one of two that RequireAlias closes |
| Isolation.ImportRuleIsDecide | rules/dependency/isolation.go:70-119 | a package's own place, under cmd or by kind, and the imported kind decide |
| Isolation.ImportRuleIffDocumented | README.md:378-386 | the same comparison for the imports of any project |
| ImportVerdicts.IsolationVerdict | rules/dependency/isolation.go:121-269 | each violation ID is reported for an import within the internal tree exactly where the boundary it names is crossed |
| ImportVerdicts.IsolationElsewhere | rules/dependency/isolation.go:70-119 | imports from outside the tree are never reported, nor any by a package that is neither in it nor a command, nor by a composition root; a command is exactly for an import from below a domain where aliases are required |
| ImportVerdicts.ExcludedByPath | rules/dependency/isolation.go:399-401 | a package is excluded by its path behind the module name, the module itself as "." |
| ImportVerdicts.AppliesIff | rules/dependency/isolation.go:42-62 | the rules run exactly if the module is named and has a loaded package and one is in the internal tree, isolation only with domains |
| Isolation.CheckPackage | rules/dependency/isolation.go:80-92 | one package's findings are exactly its forbidden imports, each once |
| Isolation.CheckPackages | rules/dependency/isolation.go:70-92 | over the project, exactly the forbidden imports of packages that are not excluded, each once |
| Isolation.Check | rules/dependency/isolation.go:42-95 | where the rule does not apply one notice gives the reason; elsewhere the dependency findings are exactly the forbidden imports, so the result is clean exactly when there are none |
| Isolation.TransitiveIsolation | rules/dependency/isolation.go:42-155 | in a clean project every import chain from a domain, shared, unclassified or transport package to orchestration or another domain passes through the composition root |
| Isolation.NoAppNoEscape | rules/dependency/isolation.go:42-155 | with no composition root directory there is no such chain |
| Isolation.AcceptedPathIsConfined | rules/dependency/isolation.go:121-155 | accepted imports that avoid the composition root lead only into the own domain or out of all domains |
| Isolation.AcceptedPathIffConfined | rules/dependency/isolation.go:121-269 | that confinement is exact: every place it names is reachable through accepted imports |
| Isolation.UnsharedPathIffConfined | rules/dependency/isolation.go:121-269 | the smaller confinement without shared packages, exact again |
| Isolation.NoSharedKind | rules/dependency/isolation.go:302-320 | a layout without a shared directory has no shared packages |
| Isolation.AcceptedImport | rules/dependency/isolation.go:70-92 | in a clean project every judged import passes the local check |
| Isolation.AppBridgesDomains | rules/dependency/isolation.go:82-85 | the composition root is reachable from any kind through shared packages and may import anything |
| Isolation.BridgedProject | rules/dependency/isolation.go:42-95 | a clean project with a chain between two domains through the composition root, so the exception is needed |
| Isolation.InternalIsCommandIff | rules/dependency/isolation.go:74-77 | an internal package is taken for a command exactly when the internal root is `cmd` or below it |
| Isolation.CmdRootDisablesIsolation | rules/dependency/isolation.go:74-119 | under such a root only deep imports can be reported, and nothing without RequireAlias |
| Isolation.CmdRootProject | rules/dependency/isolation.go:42-95 | a project under such a root where one domain imports another and nothing is reported |
| LayerDirection.CheckPackage | rules/dependency/layer_direction.go:52-148 | one package contributes exactly itself, if its sublayer is unknown, or its forbidden imports |
| LayerDirection.CheckPackages | rules/dependency/layer_direction.go:52-148 | the project's findings are exactly those of packages that are not excluded, each once |
| LayerDirection.Check | rules/dependency/layer_direction.go:33-50 | for both layouts: a notice where the rule does not apply, otherwise exactly the forbidden imports, clean exactly when there are none |
| LayerDirection.AcceptedImport | rules/dependency/layer_direction.go:52-169 | with a valid architecture and a clean result a same-domain import stays in its sublayer or follows an allowed direction between declared sublayers |
| ImportVerdicts.LayerVerdict | rules/dependency/layer_direction.go:52-169 | each of the three violation IDs is reported for an import exactly when: a restricted sublayer imports a shared package, a sibling layer is not declared, a declared sibling layer is not an allowed target; so never for another domain, a domain root or an unrestricted shared import |
| ImportVerdicts.UnknownSourceIff | rules/dependency/layer_direction.go:60-72 | a package is reported itself exactly if its own sublayer is not declared |
| LayerDirection.CleanPackages | rules/dependency/layer_direction.go:52-110 | a clean project has judged packages in declared sublayers only, and no restricted one imports a shared package |
| LayerDirection.LayerDescent | rules/dependency/layer_direction.go:52-169 | one numbering of the sublayers never rises along any chain of a clean project and is unchanged only while the sublayer is |
| LayerDirection.NeverReturns | rules/dependency/layer_direction.go:52-169 | a chain that has left a sublayer is never back in it |
| LayerDirection.RootIsUnchecked | rules/dependency/layer_direction.go:52-110 | nothing the domain root imports is judged, and its domain's packages may import it |
| LayerDirection.SublayerPathIff | rules/dependency/layer_direction.go:52-169 | with a valid architecture, accepted imports through sublayer packages lead from one sublayer to another exactly when the allowed directions between placeable layers do |
| LayerDirection.DomainIsPlaceable | rules/dependency/isolation.go:302-364 | no package is classified into a layer of three or more segments, or of two in a flat layout |
| LayerDirection.PlaceableIsIdentified | rules/dependency/isolation.go:347-364 | every other declared layer is that of the package of its name |
| LayerDirection.AllPlaceable | rules/dependency/layer_direction.go:150-169 | if all declared layers are placeable these are all the allowed directions |
| LayerDirection.RootConnectsAll | rules/dependency/layer_direction.go:52-110 | through the domain root they lead from every sublayer to every other |
| LayerDirection.StepIsVerdict | rules/dependency/layer_direction.go:52-169 | the steps of these paths are the imports of a domain's packages that the rule does not report |
| LayerDirection.RootClosesLoop | rules/dependency/layer_direction.go:52-110 | a valid, clean project with a chain that leaves a sublayer and returns to it through the domain root |
| ImportChains.ChainStaysInDomain | rules/dependency/isolation.go:42-155 | in a project clean under both rules a chain between two sublayer packages of one domain that avoids both kinds of root never leaves the domain's sublayers |
| ImportChains.ChainDescends | rules/dependency/layer_direction.go:52-169 | so it descends: no package on it ranks higher than an earlier one, and a sublayer that was left is not entered again |
| BlastRadius.CollectInternal | rules/dependency/blast_radius.go:39-46 | the internal packages that are not excluded |
| BlastRadius.BuildForward | rules/dependency/blast_radius.go:51-63 | the graph of imports between them, the last loaded package winning |
| BlastRadius.BuildReverse | rules/dependency/blast_radius.go:65-73 | the exact transpose, with a key for every package |
| BlastRadius.Visit | rules/dependency/blast_radius.go:130-142 | the queue loop ends with the start and exactly what is reachable from it |
| BlastRadius.VisitNeighbours | rules/dependency/blast_radius.go:135-141 | exactly the unvisited neighbours are marked and queued |
| BlastRadius.VisitedAreDependents | rules/dependency/blast_radius.go:130-149 | reachable in the transpose means: a different package that reaches this one by one or more imports |
| BlastRadius.MeasureOne | rules/dependency/blast_radius.go:122-151 | one package's Ca, Ce, instability and number of transitive dependents |
| BlastRadius.CollectMetrics | rules/dependency/blast_radius.go:120-153 | every internal package is measured once |
| BlastRadius.CouplingBalances | rules/dependency/blast_radius.go:120-153 | the Ca values and the Ce values have the same sum |
| BlastRadius.ImportRaisesDependentsIff | rules/dependency/blast_radius.go:120-153 | an import a to b gives b more dependents than a exactly when b does not lead back to a, and equally many otherwise |
| BlastRadius.AcyclicImportRaises | rules/dependency/blast_radius.go:120-153 | so every import does in an acyclic graph |
| BlastRadius.PercentileBetween | rules/dependency/blast_radius.go:179-191 | the index is in range and the value lies between its two neighbours |
| BlastRadius.PercentileInRange | rules/dependency/blast_radius.go:179-191 | every percentile lies between minimum and maximum |
| BlastRadius.PercentileMonotone | rules/dependency/blast_radius.go:179-191 | percentiles do not fall as p rises |
| BlastRadius.ThresholdAboveQ3 | rules/dependency/blast_radius.go:155-177 | a threshold is never below the third quartile |
| BlastRadius.AtMostAQuarterAbove | rules/dependency/blast_radius.go:82-109 | at most ceil((n-1)/4) of n packages exceed the threshold, whatever their counts |
| BlastRadius.ZeroSpreadFlagsSome | rules/dependency/blast_radius.go:164-170 | when the quartiles coincide a threshold is only returned if some package exceeds it |
| BlastRadius.Flag | rules/dependency/blast_radius.go:87-104 | exactly the packages above the threshold, each once |
| BlastRadius.QuartileIs | rules/dependency/blast_radius.go:179-191 | the quartiles are the weighted means of their two neighbours in whole quarters |
| BlastRadius.OutlierIff | rules/dependency/blast_radius.go:155-177 | a count exceeds the threshold exactly if, in whole numbers, it lies more than one and a half interquartile ranges above the third quartile and above two, or the quartiles coincide, it lies above them and some count is three or more |
| BlastRadius.Check | rules/dependency/blast_radius.go:28-110 | a notice, silence below five packages, or exactly the packages whose number of dependents is an outlier in whole numbers, in file order, never more than the quarter bound |
| BlastRadius.ReportIsDetermined | rules/dependency/blast_radius.go:28-110 | the report does not depend on the order of the map ranges |
| Sorting.SortOrdered | core/runner.go:131-142 | the stable sort's result is ordered |
| Sorting.SortIsStable | core/runner.go:131-142 | equal elements keep their input order |
| Sorting.StableSortUnique | core/runner.go:131-142 | ordered and stable determines the result, so any stable sort gives this one |
| Sorting.OrderedUnique | core/runner.go:131-142 | without ties the multiset determines the sorted sequence |
| Sorting.SortedKeys | core/runner.go:274-284 | the keys of a map in strictly increasing order, whatever order they came in |
| Runner.DedupeMetaViolations | core/runner.go:254-272 | writing into the slice it reads, the first n cells become the deduplicated old contents and the rest is untouched |
| Runner.SeenDecides | core/runner.go:259-270 | a lookup of (rule, message) among the meta violations read so far decides whether a violation is a first occurrence |
| Runner.ValidateSpec | core/runner.go:157-178 | exactly the invalid severities and repeated IDs of one rule |
| Runner.ValidateRuleSet | core/runner.go:151-187 | exactly the faults of a rule set, so none exactly for a valid one |
| Runner.NoFaultIffValid | core/runner.go:151-187 | the four faults together amount to valid severities and distinct IDs |
| Runner.CheckUnknown | core/runner.go:57-74 | passes exactly when every ID is catalogued by some rule or meta |
| Runner.CollectRule | core/runner.go:76-127 | the loop over one rule's violations appends what each is rewritten, filtered and stamped to |
| Runner.CollectAll | core/runner.go:76-127 | every rule in order, every emission in order |
| Runner.ViolationOrder | core/runner.go:131-142 | the four-key comparison is a total preorder |
| Runner.Run | core/runner.go:43-145 | which check ends a run first, and that it otherwise returns the sorted deduplicated collection |
| RunnerLaws.DedupeIsSubsequence | core/runner.go:254-272 | dedup is the order-preserving subsequence of non-meta violations and first meta occurrences |
| RunnerLaws.DedupeKeepsOthers | core/runner.go:254-272 | every copy of a non-meta violation survives |
| RunnerLaws.MetaSurvivesOnce | core/runner.go:254-272 | for each meta rule and message exactly one violation survives |
| RunnerLaws.Conservation | core/runner.go:76-145 | every emission is filtered by Without, collapsed into a surviving meta violation, or in the output with its file, line and multiplicity |
| RunnerLaws.OutputOrigin | core/runner.go:20-42 | everything in the output comes from an emission, is declared or meta, is not skipped, and has a legal severity that respects overrides |
| RunnerLaws.CatalogueSeverity | core/runner.go:212-221 | in a valid catalogue an ID's default severity is its own entry's |
| RunnerLaws.FailuresBlock | core/runner.go:100-115 | an emission with the panic ID or an undeclared one leaves an error in the output unless someone asked otherwise |
| RunnerOutcomes.PanicIsReported | core/runner.go:100-115 | a rule that panics leaves an error "meta.rule-panic" in every completed run, with its ID and the panic text, unless someone asked otherwise |
| RunnerOutcomes.UndeclaredIsReported | core/runner.go:86-115 | so does each violation with an ID its rule did not declare, as "meta.unknown-violation-id" with the rule's and that ID |
| RunnerOutcomes.ContributesIff | core/runner.go:230-246 | a rule contributes exactly what it returned, or one note that it panicked |
| RunnerOutcomes.EmissionsInOrder | core/runner.go:76-86 | every rule has as many places among the emissions as it returned violations, or one, in order |
| RunnerOutcomes.ProcessIff | core/runner.go:86-125 | what becomes of a violation, exactly: a declared or meta one keeps ID, message and fix, any other becomes "meta.unknown-violation-id" with both IDs in the text; the severity is the override, else the last catalogue entry, else by the kind of ID |
| RunnerOutcomes.RanksIff | core/runner.go:103-118 | an ID without an entry is an error for the two failures, a warning for any other meta ID, and the rule's default otherwise |
| RunnerOutcomes.EverythingIsReported | core/runner.go:76-145 | all that any rule contributes is reported as what it becomes, unless Without names it; of notes with the same ID and message one |
| RunnerOutcomes.NothingElseIsReported | core/runner.go:76-145 | and nothing else is, with severities Error and Warning only |
| RunnerOutcomes.DeclaresIff | core/runner.go:201-210 | what a rule may emit: its own ID, if any, and those of its catalogue |
| RunnerOutcomes.StartsMetaIff | core/runner.go:63-86 | meta IDs are those that start with "meta." |
| RunnerLaws.OrderIndependentIff | core/runner.go:129-144 | the output is the same for every order of the collected violations exactly when none of them is ambiguous |
| RunnerLaws.RunIsDeterministic | core/runner.go:76-144 | permuting what rules emit, within and across rules, leaves the output sequence unchanged when nothing is ambiguous |
| RunnerLaws.ResultIsOrdered | core/runner.go:131-144 | the output is ordered, and sorting it again changes nothing |
| RunnerOutcomes.ReportOrder | core/runner.go:131-142 | of two violations the later one never has the earlier file, in one file the earlier line, on one line the earlier ID, nor with one ID the earlier message |
| RunnerOutcomes.LessEqIff | core/runner.go:131-142 | strings are compared byte by byte, the first difference or the end deciding |
| JsonReport.BuildJSONReport | report/json.go:54-109 | the input array is not written; the violations are its stable sort; total = errors + warnings = length; files and rules are the distinct non-empty ones, rules strictly increasing |
| JsonReport.EntryFields | report/json.go:78-87 | each entry has the fields of its violation, each severity in its own field as "warning" or "error" |
| JsonReport.SummaryCounts | report/json.go:88-108 | warnings are counted by effective severity; files and rules are those that are named |
| JsonReport.ReportKeepsRunOrder | report/json.go:54-70 | a report lists a run's violations in the run's order |
| JsonReport.ReportIgnoresInputOrder | report/json.go:54-70 | permuted inputs without ties give the same list |
| FmtDirectives.FmtWrapArgIndexes | rules/structural/logic_budget.go:396-443 | the index loop ends within bounds on every format and returns the arguments of the scan specification |
| FmtDirectives.ScanTo | rules/structural/logic_budget.go:411-434 | what it finds between the percent sign and the verb |
| FmtDirectives.ConsumeWidthOrPrecision | rules/structural/logic_budget.go:445-459 | star, indexed star or digits, an index without a star being left |
| FmtDirectives.ParseFmtIndex | rules/structural/logic_budget.go:461-477 | an explicit index is digits in brackets of value one or more |
| FmtSyntax.FlagsWidthVerb | rules/structural/logic_budget.go:411-440 | the flags are exactly "#", "0", "+", "-" and space: in any number they change nothing; a width is read behind them, "*" taking an argument; any other character is the verb, and "w" is recorded |
| FmtSyntax.FlagsPrecisionVerb | rules/structural/logic_budget.go:411-440 | the same with a precision behind a dot |
| FmtSyntax.FlagsIndexVerb | rules/structural/logic_budget.go:411-440 | "[k]" before the verb gives it the k-th argument, and the one behind that is next |
| FmtSyntax.OtherText | rules/structural/logic_budget.go:396-440 | text without "%" is passed over, and so is "%%" |
| FmtSyntax.IndexOf | rules/structural/logic_budget.go:461-477 | "[k]" in decimal is the index of the k-th argument for every k but zero |
| FmtSyntax.DecimalRoundTrip | rules/structural/logic_budget.go:461-481 | reading a number inverts writing it in decimal |
| FmtNumbering.ScanOfPrint | rules/structural/logic_budget.go:396-481 | the scan of any printed format of the documented grammar, exactly, indexed stars included |
| FmtReference.ConsumeIsSize | rules/structural/logic_budget.go:445-459 | what a width or precision uses up and does to the numbering, by the four forms it can have |
| FmtReference.SameFlags | rules/structural/logic_budget.go:414-418 | package fmt and the scanner read the same flags, each by its own list |
| FmtReference.ScanIsParts | rules/structural/logic_budget.go:411-434 | the scan of any text is determined by its lead index, flags, width, precision and last index |
| FmtAgreement.IndexIsBracket | rules/structural/logic_budget.go:461-477 | an index of the scanner is the same one for package fmt, unless it is too large |
| FmtAgreement.BracketIsIndex | rules/structural/logic_budget.go:461-477 | and one that package fmt can use is an index of the scanner |
| FmtAgreement.DirectiveRead | rules/structural/logic_budget.go:411-434 | for any text: package fmt finds the scanner's verb with good indexes exactly when the directive is readable and in range, and then this is the next argument |
| FmtAgreement.ReadAlikeIff | rules/structural/logic_budget.go:411-434 | for any text: it also gives the verb the argument the scanner expects exactly when the directive is aligned and the argument exists |
| FmtAgreement.AllAlikeAgree | rules/structural/logic_budget.go:396-443 | when all directives of a format are alike, package fmt wraps exactly the existing arguments that the scanner finds, in order |
| FmtAgreement.SingleWrapIff | rules/structural/logic_budget.go:396-443 | for a single directive that ends in w, whatever its text, both scans give the same list exactly when it is read alike |
| FmtPrinted.FmtOfPrint | rules/structural/logic_budget.go:396-481 | on every printed format package fmt's own scan gives the documented numbering |
| FmtNumbering.AgreesIff | rules/structural/logic_budget.go:411-434 | for every printed directive and number of arguments: package fmt formats the argument the scanner expects exactly when the directive is read alike, all indexes are in range and the argument exists |
| FmtNumbering.AgreeingStep | rules/structural/logic_budget.go:411-440 | after such a directive package fmt is where the scanner is, except that it stops at the number of arguments |
| FmtNumbering.ScannerAgrees | rules/structural/logic_budget.go:396-481 | on formats made of agreeing directives package fmt wraps exactly the existing arguments among the scanner's result, for every number of arguments |
| FmtNumbering.DisagreementShows | rules/structural/logic_budget.go:411-434 | wherever they disagree about a printed directive, for any of the three reasons, there is a format on which the results differ |
| FmtNumbering.IndexFreeIncreases | rules/structural/logic_budget.go:396-443 | any text without brackets gives strictly increasing arguments |
| LogicBudget.FmtErrorfWraps | rules/structural/logic_budget.go:369-394 | every %w argument is the checked error and there is one |
| LogicBudget.ErrorsJoinPropagates | rules/structural/logic_budget.go:483-499 | every argument is the checked error or nil and the error is among them |
| LogicBudget.CheckPropagationExpr | rules/structural/logic_budget.go:336-352 | the error itself, or one of those two calls |
| LogicBudget.CheckPropagationReturn | rules/structural/logic_budget.go:304-322 | error results propagate, the others are zero literals, and there is an error result |
| LogicBudget.CheckSimpleErrorReturn | rules/structural/logic_budget.go:270-283 | an else-less nil check whose whole body is such a return |
| LogicBudget.BooleanComplexity | rules/structural/logic_budget.go:237-250 | counts the && and \|\| anywhere in the condition |
| LogicBudget.FunctionMetrics.Control | rules/structural/logic_budget.go:130-150 | a control statement adds one branch, one statement and its boolean operators, keeping cyclomatic = 1 + branches + operators |
| LogicBudget.FunctionMetrics.Statement | rules/structural/logic_budget.go:114-217 | any other statement adds one statement only |
| LogicBudget.FunctionMetrics.Clause | rules/structural/logic_budget.go:165-210 | a clause adds a branch unless it is the default |
| LogicBudget.MeasureStmt | rules/structural/logic_budget.go:114-217 | the accumulator grows by exactly the nodes the pure traversal visits |
| LogicBudget.MeasureAll | rules/structural/logic_budget.go:105-112 | the same for blocks |
| LogicBudget.MeasureFuncLits | rules/structural/logic_budget.go:223-235 | the same for the outermost function literals below a node, each with its own return context |
| LogicBudget.Measure | rules/structural/logic_budget.go:99-103 | the three numbers are the additive cost of the visited nodes, and cyclomatic = 1 + branches + boolean operators |
| BudgetShape.MeasureIsCount | rules/structural/logic_budget.go:99-250 | the three numbers are a count over the syntax: each position of each kind of node is met as statement, clause, expression or not at all; statements, branches and condition operators are counted where they are met |
| BudgetShape.StatementCount | rules/structural/logic_budget.go:114-217 | the same for one statement, its discount included |
| BudgetShape.ExpressionCount | rules/structural/logic_budget.go:223-235 | in an expression only the bodies of function literals count |
| BudgetShape.SlotsAreChildren | rules/structural/logic_budget.go:223-250 | the positions are all the nodes below a node, in order |
| BudgetShape.OperatorsAreBools | rules/structural/logic_budget.go:237-250 | the operators of a condition are those at any depth below it |
| BudgetShape.DiscountedIff | rules/structural/logic_budget.go:270-322 | an if is discounted exactly when it compares a name with nil, has no else, and its only statement returns with every error result passed on, at least one, and every other result a zero literal |
| BudgetShape.PassesOnIff | rules/structural/logic_budget.go:336-394 | passed on means: the name itself, fmt.Errorf whose wrapped arguments are all it and at least one, or errors.Join of it and nils |
| BudgetShape.ZeroLiteralIff | rules/structural/logic_budget.go:501-512 | the zero literals are nil, false, 0, "" and empty composite literals |
| BudgetLaws.StmtReduces | rules/structural/logic_budget.go:114-128 | on every statement the discount lowers every number or leaves the very same visits |
| BudgetLaws.DiscountLowers | rules/structural/logic_budget.go:99-217 | for every function the discount raises nothing and changes the statement count exactly when some visited if qualifies |
| BudgetLaws.DiscountedOnlyPropagates | rules/structural/logic_budget.go:270-322 | a discounted return whose formats carry the checked error hands back that error and no other in every error result, and nil, a literal zero or an empty collection elsewhere |
| BudgetLaws.DiscountedOnlyPropagatesIff | rules/structural/logic_budget.go:270-322 | it propagates the checked error and nothing else exactly when what is checked is an error, there is no empty slice or map literal, and nothing but nil in an interface result |
| BudgetLaws.DiscountSoundIff | rules/structural/logic_budget.go:270-394 | whatever its names and expressions stand for, a discounted return propagates the checked error and nothing else exactly when it has no false zero and package fmt wraps the checked name and no other possible error |
| BudgetLaws.AlikeCarries | rules/structural/logic_budget.go:369-394 | an accepted call carries the checked error whenever its format is read alike |
| BudgetLaws.UnreadableIsAccepted | rules/structural/logic_budget.go:369-394 | an accepted call with a single directive of any text carries it only if that is readable and in range, and does if it is also aligned |
| BudgetLaws.WrapsExist | rules/structural/logic_budget.go:369-394 | package fmt only wraps arguments that there are |
| BudgetLaws.FalseZeroIsDiscounted | rules/structural/logic_budget.go:501-512 | both exceptions are real: every false zero is discounted and does more than propagate |
| FormatGaps.MisreadWidthIsAccepted | rules/structural/logic_budget.go:369-443 | a width index kept for the verb, for every index: accepted, and package fmt wraps the next argument |
| FormatGaps.MisplacedIndexIsAccepted | rules/structural/logic_budget.go:369-443 | an index before digits, for every index and width: accepted, and package fmt wraps nothing |
| FormatGaps.BadIndexIsAccepted | rules/structural/logic_budget.go:369-443 | an index out of range anywhere in a directive: accepted, and package fmt wraps nothing |
| FormatGaps.ZeroIndexIsAccepted | rules/structural/logic_budget.go:369-477 | the index zero, in any spelling: accepted, and package fmt wraps the argument before |
| FormatGaps.PercentIndexIsAccepted | rules/structural/logic_budget.go:369-481 | an index on a percent verb, for every index above one: accepted, and package fmt wraps that argument |
| FormatGaps.NonErrorIsAccepted | rules/structural/logic_budget.go:369-394 | the type of the checked name is not looked at: a wrapped non-error is accepted |
| TypeWalk.UnaliasIff | core/analysisutil/ast.go:337-337 | resolving aliases gives the one type that ends the chain of aliases |
| TypeWalk.SignatureWalk.Walk | core/analysisutil/ast.go:331-373 | ends on cyclic graphs; a marked type that is no longer being walked has its name visited and its parts marked, though aliases are marked before they are resolved; marks and visits are those of the pure depth-first walk |
| TypeWalk.WalkSignatureNamedTypes | core/analysisutil/ast.go:329-375 | visits exactly the names that the type contains, by chains of constructor steps that do not enter a named type's underlying type, in depth-first order, each as often as marked types bear it |
| TypeWalk.EdgeIsMadeOf | core/analysisutil/ast.go:343-373 | what a type is made of, constructor by constructor: elements, map keys, parameters and results, tuple variables, fields, methods, type arguments, aliased types |
| TypeWalk.MentionsIff | core/analysisutil/ast.go:329-375 | a name is mentioned exactly if a chain of such steps leads to a named type of that name |
| TypeWalk.WalkOrder | core/analysisutil/ast.go:331-373 | the order of the walk: own name first, key before element, parameters before results, lists in order |
| TypeWalk.CheckSignatureField | rules/tx/boundary.go:164-176 | reports each wanted name that the type contains once, in the order of first visit |
| CaseNames.PascalToSnake | core/analysisutil/ast.go:156-170 | the loop computes the conversion the lemmas are about |
| CaseNames.SnakeToPascal | core/analysisutil/ast.go:137-148 | the same for the other direction |
| CasePlaces.SnakePlaces | core/analysisutil/ast.go:156-170 | every character becomes itself in lower case, behind an underscore exactly where it starts a word, and nothing else is added |
| CasePlaces.PascalPlaces | core/analysisutil/ast.go:137-148 | underscores go, the first character and each one behind an underscore is raised, every other one stays |
| CasePlaces.Letters | core/analysisutil/ast.go:137-170 | letters and digits are the 26, 26 and 10 of ASCII |
| CaseNames.SnakeIdempotent | core/analysisutil/ast.go:156-170 | converting twice is converting once, for every string |
| CaseNames.SnakeNoUpper | core/analysisutil/ast.go:156-170 | the result has no upper-case letter, and a name without any is unchanged |
| CaseNames.RoundTripIff | core/analysisutil/ast.go:137-170 | for names of lower-case words the conversions are inverse exactly when every underscore survives |
| CaseNames.LongWordsRoundTrip | core/analysisutil/ast.go:137-170 | in particular when all words but the last have two letters |
| SnakeFiles.CheckSnakeCase | rules/naming/snake_case_files.go:59-81 | the recursive loops decide the snake-case predicate |
| SnakeFiles.PassesIffSegments | rules/naming/snake_case_files.go:59-81 | exactly which strings pass: every segment is made of lower-case letters, digits and underscores, is not empty and not a mere test suffix |
| SnakeFiles.RenameAcceptedIff | rules/naming/snake_case_files.go:59-86 | for every file name, exactly when the suggested rename passes |
| SnakeFiles.WellNamedRenameAcceptedIff | rules/naming/snake_case_files.go:59-86 | if every segment starts with a letter or digit and has only letters, digits and underscores, exactly when the extension has no upper-case letter |
| SnakeFiles.GoRenameAcceptedIff | rules/naming/snake_case_files.go:59-86 | for a Go file the stem alone decides |
| SnakeFiles.UnchangedIff | rules/naming/snake_case_files.go:83-86 | the suggestion is the name itself exactly when the stem has no upper-case letter |
| SnakeFiles.HyphenIsNotConverted | rules/naming/snake_case_files.go:59-86 | `my-file.go` fails and is suggested as its own rename |

## Left out

- Architecture.Validate: the order and multiplicity of reports are not stated, because the source joins them as sorted text; map ranges are taken in sorted order.
- Runner.Run: a rejected run gives the reason only, not the joined text; a second panic inside `Spec` and a rule that answers differently on each call are not modelled.
- Runner.ValidateRuleSet: the order and multiplicity of the reports, which the source sorts as text.
- FmtNumbering.ScanOfPrint: the grammar has complete directives with one verb other than `%`, and indexes only where package fmt documents them; all other texts are the subject of FmtAgreement.
- FmtAgreement.AllAlikeAgree: one-way, since a directive that is read differently need not change what is wrapped; for a single directive SingleWrapIff is exact.
- BlastRadius.Check: float64 is modelled by real numbers; every value that occurs is a multiple of 1/8 except instability, which is only displayed.
- BudgetLaws.DiscountSoundIff: `nil` and `false` are assumed not to be shadowed, which the source does not look at, and the checked name is not one of them.
- LogicBudget.Measure: a `for` without a condition has no boolean operators; what go/ast does with the nil condition is not modelled.
- Sorting.SortIsStable: the algorithm of Go's sort package; its contract is modelled and shown to determine the result.
- Message and fix texts beyond the runner's own, Go's %q escaping inside them, file positions and the search for an import's line.
- Package loading: the packages, their imports and their modules are data; a nil package counts as one without a module.
- go/types and go/ast: resolved callee names, which results are errors, and alias chains are data; the type checker's guarantee that aliases end is a precondition.
- Unicode and integer overflow: strings are sequences of bytes in ASCII, `strconv.Atoi` has no upper limit.
- The configuration part of the logic budget rule (limits, ignored functions and paths, choice of orchestration packages) and the loops over files in the snake-case, transaction and repository interface rules.
- The other structural, naming, interface and type rules, presets, options, scaffolding, JSON encoding, terminal and command-line interface: single-branch checks, constants or input and output.
