# Verified models of Weft's algorithms

This project models the algorithms that Weft's tooling and alerting rest on, and proves what they are
relied on for. Every `.dfy` file is part of one project; `dafny verify dfyconfig.toml` checks it.

| Part | Files |
|---|---|
| Import cycles: strongly connected components, spelling of cycles, allowlist gate | `ImportGraph`, `TarjanState`, `TarjanSteps`, `Tarjan`, `CyclePaths`, `CanonicalCycles`, `CycleGate`, `CycleReport` |
| JSON Schema to TypeScript: the emitter, two semantics, soundness, precision, exact meaning, depth, well-formed output | `JsonValues`, `SchemaEmitter`, `SchemaSemantics`, `EmitterSoundness`, `EmitterLimits`, `EmitterOutput`, `EmitterPrecision`, `ClosedObjects`, `EmitterMeaning`, `EmitterThrows` |
| Operation client: schema to type node, hoisting of repeated shapes into aliases, the meaning of the printed types | `OperationSchemas`, `TypeNodes`, `AliasReferences`, `AliasPruning`, `AliasSelection`, `RenderedTypes` |
| Alerting: sliding windows, rules that fire and resolve, listeners that re-enter, whole runs | `SlidingWindow`, `WindowRuns`, `AlertModel`, `AlertCalls`, `AlertInputs`, `AlertHistory`, `AlertRuns`, `StaleRecording`, `AlertManagers` |
| Command suggestions | `EditDistance` |
| Scripts: bounded output tail, LCOV report, text edits, argument scanner, snapshot codec | `OutputTail`, `LcovReport`, `LcovMeaning`, `LcovText`, `TextEdits`, `ArgumentScanner`, `SnapshotCodec` |
| Shared: value types, sorting | `Basics`, `Sorting` |

Code that updates variables in place is modelled by classes and loops (`ComponentSearch`,
`CounterWindow`, `HistogramWindow`, `AlertManager`, `OccurrenceCounter`, `ReferenceCounter` and the
methods of the script models), each tied to a function of its inputs or of its old state. Code made of
expressions is modelled by functions. The laws are lemmas over those functions.

## What the proofs found

- The search for strongly connected components never throws `Missing ...`. It throws `Tarjan stack
  underflow` exactly when the empty path is a vertex, because the popped value is tested for truth.
- A lone self-import is spelled as the empty list, so the allowlist compares only whether there are
  self-imports at all, not which files import themselves (`CycleGate.SelfImportsAreNotToldApart`).
- `normalizeCycle` is idempotent on every input. It is canonical for a cycle exactly when the spelling
  found at every pair of neighbouring smallest paths is the same. That holds for distinct paths and for
  some cycles that repeat the smallest path (`[x, y, x, y]`), and fails for others (`[x, y, x, z]`).
- The emitter is sound for every value met as it reads the schema, wherever it looks: nothing is asked
  below a node that degrades, and of alternatives only one that accepts the value. At a node, an accepted
  value outside that reading is lost (non-objects under an untyped object schema, non-arrays under an
  untyped array schema, arrays shorter than a tuple's positions) unless a list of types has an entry that
  names no type.
- A closed object that requires a key it does not declare accepts no object. Its type contains objects
  all the same, exactly when the properties that are both required and declared can be filled, and every
  one of them is rejected by the schema (`ClosedObjects.ForbiddenIsImprecise`).
- `schemaToNode` departs from the schema in two places: `properties` without a type, and `items` beside
  `prefixItems`, which it applies to the prefix too (`OperationSchemas.PrefixedItemsUnsound`).
- The pruning loop of `selectAliases` allows for many rounds and says that dropping a parent can lower a
  child's count. It cannot: one round suffices, and survivors keep their counts.
- Alert handlers read the clock once and record that time for each rule in turn. A listener that
  re-enters between two rules can leave the window of the later rule out of order, and the binary search
  can then drop an event that is still within the window, so that a firing alert resolves
  (`StaleRecording.StaleTimestampLosesAnEvent`). The event stays lost: later evaluations misread the
  history until it has aged out of the window (`StaleRecording.LostEventStaysLost`). An evaluation reads
  the right window exactly when the deque it finds splits at its cutoff and no dropped entry is within the
  window. The first rule of each metric is safe whatever listeners do.
- Alternation of alerts rests on setting the status before the dispatch: in the other order a listener
  that ticks the manager makes an alert fire twice in a row.
- Text replacements that start at the same place are applied in the reverse of their listed order, and
  one listed after an insertion at its start overwrites that insertion.
- The argument splitter counts brackets without their kinds. A closing bracket that matches none, or one
  of another kind, makes it cut inside brackets (`],[a,b]`, `(a],b)`). Before any such bracket it cuts
  exactly at the commas outside quotes and brackets.

## Model

| member | source | states |
|---|---|---|
| `Tarjan.FindStronglyConnectedComponents` | scripts/check-import-cycles.ts:226-287 | for every graph: throws exactly when the empty path is a vertex, else every vertex is in exactly one component, components are exactly the classes of mutual reachability without repetition, and edges lead only to components already listed |
| `Tarjan.ComponentSearch.Connect` | scripts/check-import-cycles.ts:236-278 | the recursive closure takes the search from any state satisfying the invariant to one where the vertex is either emitted or stacked with an attained, exact lowlink; it terminates, and underflow implies an empty path |
| `Tarjan.ComponentSearch.PopComponent` | scripts/check-import-cycles.ts:263-277 | pops the whole segment above and including the vertex as one component in pop order, or underflows exactly when the segment holds the empty path |
| `TarjanState.PushEstablishesScanning` | scripts/check-import-cycles.ts:237-241 | numbering and stacking a new vertex that every stacked vertex reaches establishes the scanning invariant |
| `TarjanState.NeighbourMayConnect` | scripts/check-import-cycles.ts:243-245 | an unvisited neighbour is reached by every stacked vertex, so the recursive call's precondition holds |
| `TarjanSteps.ChildStep` | scripts/check-import-cycles.ts:244-248 | after a child call returns, taking the minimum of the two lowlinks keeps the scanning invariant for one more neighbour |
| `TarjanState.StackedNeighbourStep` | scripts/check-import-cycles.ts:249-253 | lowering the lowlink to a stacked neighbour's number keeps the scanning invariant |
| `TarjanState.EmittedNeighbourStep` | scripts/check-import-cycles.ts:243-254 | an already emitted neighbour needs no action |
| `TarjanSteps.ReturnUnemitted` | scripts/check-import-cycles.ts:259-261 | with a lowlink below its number the vertex still leads to an open call, so returning keeps the invariant |
| `TarjanSteps.SegmentIsComponent` | scripts/check-import-cycles.ts:256-277 | when lowlink and number agree, the stack segment is exactly one class of mutual reachability |
| `TarjanSteps.EmitStep` | scripts/check-import-cycles.ts:263-278 | emitting the segment restores the caller's stack and the invariant |
| `Tarjan.SearchedEverything` | scripts/check-import-cycles.ts:280-286 | once every key is numbered and no call is open, the components are the condensation of the whole graph |
| `Tarjan.EdgeLeadsToEarlier` | scripts/check-import-cycles.ts:277-286 | components come out in reverse topological order |
| `ImportGraph.OnCycleCharacterised` | scripts/check-import-cycles.ts:359-366 | a vertex is on a cycle exactly when it has a self-loop or a distinct strongly connected partner |
| `CyclePaths.CompareTrichotomy` | scripts/check-import-cycles.ts:289-308 | the comparator is zero exactly on equal lists and antisymmetric |
| `CyclePaths.CompareTransitive` | scripts/check-import-cycles.ts:289-308 | the comparator is transitive, so sorting by it is well defined |
| `CyclePaths.CompareIsLexicographic` | scripts/check-import-cycles.ts:289-308 | the order is that of a dictionary: a list comes first exactly when it ends where the other goes on, or has the lesser path where the two first differ |
| `Sorting.LessIsLexicographic` | scripts/check-import-cycles.ts:300-300 | one string is less than another exactly when it ends where the other goes on, or has the lesser character where the two first differ |
| `CyclePaths.RotateIsWalk` | scripts/check-import-cycles.ts:310-327 | rotating a closed cycle is the walk round it from the start index, closed again |
| `CyclePaths.NormalizeIsLesserWalk` | scripts/check-import-cycles.ts:329-355 | the result is the lesser of the forward walk from the first smallest path and the backward walk from the last one |
| `CyclePaths.NormalizeEmptyExactly` | scripts/check-import-cycles.ts:329-355 | the result is empty exactly when nothing is left to spell or an empty path is in the cycle |
| `CyclePaths.NormalizeIdempotent` | scripts/check-import-cycles.ts:329-355 | normalizing twice is normalizing once, for every input |
| `CanonicalCycles.CanonicalExactly` | scripts/check-import-cycles.ts:329-355 | all rotations and reflected rotations of a cycle get one spelling exactly when the same spelling is found at every pair of neighbouring smallest paths |
| `CanonicalCycles.NormalizeCanonical` | scripts/check-import-cycles.ts:329-355 | for such a cycle, open or closed, and any other list, the two get one spelling exactly when one is a rotation or reflected rotation of the other |
| `CanonicalCycles.SameSpellingSameCycle` | scripts/check-import-cycles.ts:329-355 | cycles that are spelled alike are always rotations or reflected rotations of each other |
| `CanonicalCycles.DistinctHasOneSpelling` | scripts/check-import-cycles.ts:338-340 | distinct paths meet the condition |
| `CanonicalCycles.RepetitionCanBeCanonical` | scripts/check-import-cycles.ts:338-354 | so does a cycle of two paths walked twice over, although its smallest path is repeated |
| `CanonicalCycles.RepeatedSmallestNotCanonical` | scripts/check-import-cycles.ts:345-354 | a repeated smallest path can give one cycle two spellings |
| `CycleGate.DetectCycles` | scripts/check-import-cycles.ts:357-369 | reports nothing exactly when no vertex is on a cycle, self-loops included; otherwise the sorted spellings of the cyclic components |
| `CycleGate.OnCycleWithinComponent` | scripts/check-import-cycles.ts:359-366 | the filter keeps a component exactly when its vertices are on a cycle and it is not the empty path alone |
| `CycleGate.NothingKeptExactlyWhenAcyclic` | scripts/check-import-cycles.ts:357-369 | the filter keeps nothing exactly when the graph is acyclic |
| `CycleGate.SpellOfComponent` | scripts/check-import-cycles.ts:367-367 | a component of two or more is spelled as its sorted members with the first repeated |
| `CycleGate.SpellIdentifiesMembers` | scripts/check-import-cycles.ts:367-367 | two spellings agree exactly when the member sets do, except that all lone self-imports are spelled alike |
| `CycleGate.JoinInjective` | scripts/check-import-cycles.ts:371-373 | joining newline-free non-empty paths by newlines loses nothing |
| `CycleGate.KeyIdentifiesNormalForm` | scripts/check-import-cycles.ts:371-373 | cycle keys agree exactly when normal forms do |
| `CycleGate.GateComparesNormalForms` | scripts/check-import-cycles.ts:440-459 | with an allowlist present the gate passes exactly when it and the current cycles have the same normal forms |
| `CycleGate.MissingAllowlistNeedsUpdate` | scripts/check-import-cycles.ts:421-438 | without an allowlist the script succeeds exactly when it was asked to write one, whatever the cycles |
| `CycleGate.GateComparesComponents` | scripts/check-import-cycles.ts:357-459 | against an allowlist written from earlier components the gate passes exactly when the same groups import each other and self-imports are in both or in neither |
| `CycleGate.SelfImportsAreNotToldApart` | scripts/check-import-cycles.ts:367-373 | an allowlist written for one self-importing file passes another |
| `CycleReport.ReportIndependentOfOrder` | scripts/check-import-cycles.ts:226-369 | the report is a function of which files import which: no iteration order of maps and sets, and no order in which components or members are found, shows in it, whatever the renaming |
| `CycleReport.ReportIsSorted` | scripts/check-import-cycles.ts:368-368 | the reported cycles are in the comparator's order |
| `CycleReport.GatePassesAfterUpdate` | scripts/check-import-cycles.ts:396-459 | once the current cycles are in the allowlist the gate passes, for every list of cycles |
| `EmitterSoundness.Soundness` | src/cli/codegen-emit.ts:94-442 | for every schema that does not throw and every meaning of the other keywords, a value the schema accepts is in the emitted type, if it is met as the emitter reads the schema wherever the emitter looks |
| `EmitterSoundness.CatchAllSound` | src/cli/codegen-emit.ts:176-190 | a list of types with an entry that names no type is emitted as a type with every value in it |
| `EmitterSoundness.CombinatorSound` | src/cli/codegen-emit.ts:94-118 | `oneOf` and `anyOf` as unions, `allOf` as intersection, and the degradation to `unknown`, are sound |
| `EmitterSoundness.EnumOrConstSound` | src/cli/codegen-emit.ts:120-146 | literal types contain the accepted value |
| `EmitterSoundness.ProjectionFits` | src/cli/codegen-emit.ts:154-174 | a value of one of the listed types still fits the node cut down to that type |
| `EmitterSoundness.TypeSound` | src/cli/codegen-emit.ts:176-216 | dispatch on `type`, single or list, is sound |
| `EmitterSoundness.ShapeSound` | src/cli/codegen-emit.ts:218-231 | dispatch on shape without a type is sound for values of that shape |
| `EmitterSoundness.TupleSound` | src/cli/codegen-emit.ts:294-321 | tuples of both drafts, closed, open or typed at the end, contain every accepted array that fills the positions |
| `EmitterSoundness.ArraySound` | src/cli/codegen-emit.ts:288-330 | array types of every form contain the accepted array |
| `EmitterSoundness.ObjectSound` | src/cli/codegen-emit.ts:364-404 | closed, open and typed-open objects, with required-but-undeclared keys, contain the accepted object |
| `EmitterSoundness.IndexSound` | src/cli/codegen-emit.ts:419-442 | every member, declared or not, is in the index signature's type |
| `EmitterLimits.ReadingIsExact` | src/cli/codegen-emit.ts:218-231 | an accepted value whose parts are within the reading is in the type exactly when the node reads it as the emitter does, or lists a type entry that names no type |
| `EmitterLimits.OutsideReadingExcluded` | src/cli/codegen-emit.ts:176-330 | a value the reading rules out at a node is in the node's type exactly when a list of types there has an entry that names no type |
| `EmitterLimits.UntypedObjectUnsound` | src/cli/codegen-emit.ts:219-225 | every untyped object schema accepts every non-object, and its type contains none |
| `EmitterLimits.EmptyTupleUnsound` | src/cli/codegen-emit.ts:294-321 | every non-empty tuple schema, typed, untyped or with a list of types, accepts the empty array unless its type rules arrays out, and its type contains it only by way of an entry that names no type |
| `EmitterLimits.SoundnessForExplicit` | src/cli/codegen-emit.ts:94-442 | for a schema that states its types and gives its tuples a `minItems`, soundness holds for every accepted value |
| `EmitterOutput.WithinDepth` | src/cli/codegen-emit.ts:176-190 | a schema nested `n` levels costs at most two levels of recursion each, so it does not throw while that fits the limit |
| `EmitterOutput.ThirtyOneLevelsEmit` | src/cli/codegen-emit.ts:92-92 | no schema nested at most 31 levels below the root throws |
| `EmitterOutput.TowerThrows` | src/cli/codegen-emit.ts:241-246 | a tower of arrays with a list of types at each level throws exactly when twice its height passes the limit |
| `EmitterOutput.ThirtyTwoLevelsCanThrow` | src/cli/codegen-emit.ts:92-92 | 32 levels can throw |
| `EmitterOutput.EmittedWellFormed` | src/cli/codegen-emit.ts:241-259 | everywhere in an emitted type, object types have ascending names and a legal index signature, an object without members is a record, and only two or more types are joined |
| `EmitterOutput.IndexMembersLegal` | src/cli/codegen-emit.ts:428-438 | each named property's type, and `undefined` when one is optional, is included in the index signature |
| `EmitterOutput.EnumNamesItsValues` | src/cli/codegen-emit.ts:120-128 | the union of an `enum` names each listed value in its place, or is `unknown` as a whole |
| `EmitterPrecision.Tight` | src/cli/codegen-emit.ts:94-442 | on schemas the emitter understands in full, every value of the emitted type is accepted by the schema |
| `EmitterPrecision.Precision` | src/cli/codegen-emit.ts:94-442 | on those schemas the type and the schema contain the same values |
| `EmitterMeaning.EmissionIsExact` | src/cli/codegen-emit.ts:94-442 | for every schema that does not throw and every value, the value is in the emitted type exactly when the schema, with `oneOf` read as some branch, `integer` as `number`, typed further members widened by the named ones, and degraded nodes as no restriction, admits it |
| `EmitterThrows.ThrowsExactly` | src/cli/codegen-emit.ts:94-442 | for every schema and depth, the emitter throws exactly when something it looks at lies more than 64 calls deep, where each entry of a list of types is a call of its own and nothing is looked at below a degraded node |
| `ClosedObjects.ForbiddenIsImprecise` | src/cli/codegen-emit.ts:338-404 | for every closed object node that requires an undeclared key: each value of the type is rejected by the schema, and there is one exactly when the properties both required and declared can be filled |
| `ClosedObjects.ForbiddenAcceptsNoObject` | src/cli/codegen-emit.ts:375-404 | such a schema accepts no object |
| `SchemaEmitter.ProjectNodeForTypeBranch` | src/cli/codegen-emit.ts:157-174 | the copying loop keeps exactly the keywords that apply to the branch and sets the branch's type, in any order of keys |
| `SchemaEmitter.RenderObjectProperties` | src/cli/codegen-emit.ts:338-362 | the loop over the sorted keys fills the field list, the list of value types and the optional flag consistently |
| `OperationSchemas.NodeSound` | scripts/generate-operation-client.ts:205-267 | a value the schema accepts, met by neither departure, is in the node's type |
| `OperationSchemas.DeparturesAreExact` | scripts/generate-operation-client.ts:205-267 | where the parts behind are read faithfully, an accepted value is in the type exactly when untyped `properties` meets an object and prefix elements are ones that `items`, as far as the function looks at it, admits |
| `OperationSchemas.NodeIsExact` | scripts/generate-operation-client.ts:205-267 | for every schema and value, the node's type contains the value exactly when the schema admits it after everything the function does not look at is left out |
| `OperationSchemas.NodeKeepsOrder` | scripts/generate-operation-client.ts:205-267 | fields stand in the order of their names, and members of a union in the order the schema lists them |
| `OperationSchemas.SoundForStraightforward` | scripts/generate-operation-client.ts:205-267 | a schema without either departure, here or below, is typed soundly for every accepted value |
| `OperationSchemas.PrefixedItemsUnsound` | scripts/generate-operation-client.ts:228-234 | a string prefix before number items is typed as an array of numbers, which excludes an accepted value |
| `OperationSchemas.PlainIsSchemaToNode` | scripts/generate-operation-client.ts:235-244 | a member of a type list is what the type alone would give |
| `TypeNodes.HoistingPreservesRoot` | scripts/generate-operation-client.ts:275-319 | expanding all aliases in a rendered operation position gives exactly the text without aliases |
| `TypeNodes.HoistingPreservesDeclaration` | scripts/generate-operation-client.ts:502-514 | each declaration expands to the alias-free text of the shape it was made from |
| `TypeNodes.DeclarationsWellRanked` | scripts/generate-operation-client.ts:275-307 | each declaration refers only to declarations of smaller shapes, so expansion is well founded |
| `TypeNodes.NoAliasReachesItself` | scripts/generate-operation-client.ts:497-514 | no chain of references leads from an alias back to itself |
| `RenderedTypes.PlainTextMeans` | scripts/generate-operation-client.ts:275-307 | for every node and value, the text without aliases stands for the value exactly when the node does |
| `RenderedTypes.PrintedTypeMeans` | scripts/generate-operation-client.ts:205-319 | for every schema, set of aliases and value, the type printed for the schema, with its aliases looked up, stands for the value exactly when the schema admits it |
| `AliasReferences.CounterMatchesText` | scripts/generate-operation-client.ts:431-495 | the structural count of an alias is the number of times its name appears in all rendered entries and declarations |
| `AliasPruning.CandidateIsReferenced` | scripts/generate-operation-client.ts:346-361 | every candidate is referred to at least once |
| `AliasPruning.DropOne` | scripts/generate-operation-client.ts:346-361 | dropping an alias referred to once leaves every other count as it was |
| `AliasPruning.DropAll` | scripts/generate-operation-client.ts:346-361 | so does dropping all of them at once |
| `AliasPruning.OneRoundSuffices` | scripts/generate-operation-client.ts:352-361 | one round reaches the fixed point, with every survivor's count unchanged and at least two |
| `AliasSelection.SelectAliases` | scripts/generate-operation-client.ts:337-364 | the loop shrinks at most once; the result is the survivors of one round under distinct names, or a collision exactly when two survivors share a name |
| `AliasSelection.SelectedAliasAppearsTwice` | scripts/generate-operation-client.ts:331-336 | each selected alias name appears at least twice in the emitted text |
| `AliasSelection.CountAliasReferences` | scripts/generate-operation-client.ts:439-495 | the traversals with their shared map and set compute the structural count |
| `AliasSelection.ReferenceCounter.CollectBodies` | scripts/generate-operation-client.ts:481-492 | each hoisted body below the node is counted once, however often it occurs |
| `AliasSelection.ReferenceCounter.VisitChild` | scripts/generate-operation-client.ts:455-463 | a hoisted child is one reference and is not entered; another child contributes its own references |
| `AliasSelection.OccurrenceCounter.Collect` | scripts/generate-operation-client.ts:366-380 | adds to each shape's count the number of its occurrences in the tree |
| `AliasSelection.CollectCandidates` | scripts/generate-operation-client.ts:337-344 | the candidates are the object shapes with three or more fields that occur at least twice, and those with two fields that occur at least three times, under their true occurrence counts |
| `AliasSelection.AssignAliasNames` | scripts/generate-operation-client.ts:395-415 | throws exactly when two shapes get one name, else the name map is injective |
| `SlidingWindow.LowerBound` | src/alerting/sliding-window.ts:18-30 | the loop computes the split point of the halving search, on entries in any order |
| `SlidingWindow.SearchSplits` | src/alerting/sliding-window.ts:14-30 | whenever the entries split into old before recent, in order or not, that point is the split |
| `SlidingWindow.PrunedIsWithin` | src/alerting/sliding-window.ts:62-71 | pruning keeps exactly the entries within the window if and only if the deque splits at the cutoff |
| `WindowRuns.DequeAgrees` | src/alerting/sliding-window.ts:49-71 | over any run of pushes and prunes that always met a split deque, the deque seen from any later time holds what the full history holds |
| `WindowRuns.DequeIsSuffix` | src/alerting/sliding-window.ts:49-71 | in whatever order entries came, the deque is what remains of the full history after some were dropped from its front |
| `WindowRuns.PruneShowsHistory` | src/alerting/sliding-window.ts:62-71 | after any run, a prune shows exactly the history within its window if and only if the deque splits at its cutoff and nothing dropped is within the window |
| `WindowRuns.OrderedAlwaysSplits` | src/alerting/sliding-window.ts:49-71 | operations in order of time always meet a split deque |
| `SlidingWindow.WithinTwice` | src/alerting/sliding-window.ts:62-71 | an earlier prune takes nothing that a later one would have kept |
| `SlidingWindow.CounterWindow.Record` | src/alerting/sliding-window.ts:49-53 | appends and prunes; the failure counter stays the number of failures in the deque, whatever the clock does |
| `SlidingWindow.CounterWindow.Rate` | src/alerting/sliding-window.ts:56-60 | the incremental counter gives the failure rate of the pruned deque |
| `SlidingWindow.RateIsShare` | src/alerting/sliding-window.ts:55-60 | the rate times the number of events is the number of failed events, and with no events it is zero |
| `SlidingWindow.CounterWindow.Prune` | src/alerting/sliding-window.ts:62-71 | drops the old entries and takes exactly their failures off the counter |
| `SlidingWindow.HistogramWindow.Record` | src/alerting/sliding-window.ts:92-96 | appends and prunes; the sorted array stays ascending and the same multiset as the deque's values, whatever the clock does |
| `SlidingWindow.HistogramWindow.Percentile` | src/alerting/sliding-window.ts:99-104 | the indexed entry of the maintained array is the percentile of the pruned deque's values |
| `SlidingWindow.HistogramWindow.InsertSorted` | src/alerting/sliding-window.ts:107-119 | inserts one value and keeps the order |
| `SlidingWindow.HistogramWindow.RemoveSorted` | src/alerting/sliding-window.ts:122-137 | removes one occurrence if there is one and keeps the order |
| `SlidingWindow.HistogramWindow.Prune` | src/alerting/sliding-window.ts:139-148 | drops the old observations from both the deque and the sorted array |
| `SlidingWindow.PercentileIsLeast` | src/alerting/sliding-window.ts:98-104 | for 0 < p <= 100 the result is the least stored value with at least p percent of the values at or below it |
| `SlidingWindow.NoValuesNoPercentile` | src/alerting/sliding-window.ts:99-104 | without observations the percentile is zero |
| `AlertModel.TraceAlternates` | src/alerting/alert-manager.ts:211-246 | over every run of steps in any interleaving, a rule's notices alternate fired and resolved from fired, it fires exactly when fired notices exceed resolved ones by one, and the two timestamps are those of the last notices |
| `AlertCalls.NestedIsRun` | src/alerting/alert-manager.ts:146-246 | with the status set, then the notice dispatched, then listeners calling back to any depth, every execution of the entry points is an ordinary run of steps |
| `AlertCalls.NestedTraceAlternates` | src/alerting/alert-manager.ts:211-246 | however listeners re-enter, every rule's trace alternates and tells its status and timestamps |
| `AlertCalls.DispatchFirstFiresTwice` | src/alerting/alert-manager.ts:231-237 | with the dispatch before the status change, a listener that ticks the manager makes an alert fire twice in a row |
| `AlertInputs.QuietCallServesRules` | src/alerting/alert-manager.ts:135-204 | a call during which no listener calls back reads the clock once or takes the size, if some rule needs it, and then records and evaluates rule after rule those of its metric, a tick all of them |
| `AlertInputs.RuleHearsItsCalls` | src/alerting/alert-manager.ts:135-204 | over every run without re-entry, what is recorded and evaluated for a rule is exactly what each call in turn asks for: the outcome with its time, the duration with its time, and the readings |
| `AlertInputs.NoticesAreTrue` | src/alerting/alert-manager.ts:229-246 | over every run of steps, each notice tells the rule, the time and the stored value of one evaluation, and fires exactly when that value is at or above the threshold |
| `AlertHistory.EvaluationReadsExactly` | src/alerting/alert-manager.ts:211-229 | after any run, an evaluation reads exactly the part of the full history within the window if and only if the deque it finds splits at its cutoff and no dropped entry is within the window |
| `AlertHistory.ManagerRefinesHistory` | src/alerting/alert-manager.ts:146-246 | over every run of steps, a rule's last evaluation read the right window if and only if that condition held, and then its value and status are those computed from the unpruned history |
| `AlertHistory.SplitsAreReady` | src/alerting/alert-manager.ts:146-246 | the condition holds when every prune of the window met a split deque and no earlier time lies ahead |
| `AlertHistory.OrderedTimesSplit` | src/alerting/alert-manager.ts:146-246 | times that never go back for a rule are enough for split deques |
| `StaleRecording.StaleTimestampLosesAnEvent` | src/alerting/alert-manager.ts:153-162 | two equal failure-rate rules, a listener of the first that lets a workflow fail later, readings that never go back: the second rule's notices are fired, then resolved, and it ends idle although the history says firing |
| `StaleRecording.LostEventStaysLost` | src/alerting/alert-manager.ts:211-229 | afterwards the empty deque splits at every cutoff, and an evaluation reads the right window exactly when the lost event has aged out of it |
| `AlertRuns.NestedRefinesHistory` | src/alerting/alert-manager.ts:135-246 | over every run of events and ticks, with listeners that re-enter and any clock, a rule's last evaluation read the right window if and only if it was ready, and then the rule agrees with the full history |
| `AlertRuns.SplitRunsAgree` | src/alerting/alert-manager.ts:135-246 | under a clock whose readings never go back, a rule whose prunes all met split deques agrees with the full history |
| `AlertRuns.UndisturbedRefinesHistory` | src/alerting/alert-manager.ts:146-204 | a rule agrees with the full history when no listener is at work while a handler is on its way to it |
| `AlertRuns.FirstOfMetricRefinesHistory` | src/alerting/alert-manager.ts:146-204 | the first rule of its metric always agrees with the full history, whatever listeners do |
| `AlertRuns.RunRefinesHistory` | src/alerting/alert-manager.ts:135-246 | without listeners that re-enter, every rule agrees with the full history |
| `AlertManagers.AlertManager.constructor` | src/alerting/alert-manager.ts:78-133 | starts every rule idle with its own empty window of the kind and length it asks for |
| `AlertManagers.AlertManager.RecordOutcomeAt` | src/alerting/alert-manager.ts:158-159 | records in one rule's window and leaves all other windows alone |
| `AlertManagers.AlertManager.RecordDurationAt` | src/alerting/alert-manager.ts:184-185 | records in one rule's window and leaves all other windows alone |
| `AlertManagers.AlertManager.ReadMetric` | src/alerting/alert-manager.ts:216-227 | the metric of the rule's kind, read after its window alone is pruned |
| `AlertManagers.AlertManager.EvaluateRule` | src/alerting/alert-manager.ts:211-246 | the object takes exactly the evaluation of the value model, including the calls listeners make during its dispatch |
| `AlertManagers.AlertManager.Measure` | src/alerting/alert-manager.ts:216-229 | the metric is read and stored in the rule's state alone |
| `AlertManagers.AlertManager.Settle` | src/alerting/alert-manager.ts:231-240 | fires only from idle at or above the threshold, resolves only from firing below it, with the timestamp, and says which notice is due |
| `AlertManagers.AlertManager.OnWorkflowSettled` | src/alerting/alert-manager.ts:152-175 | the handler, re-entered or not, is the execution of its call in the value model |
| `AlertManagers.AlertManager.OnActivityCompleted` | src/alerting/alert-manager.ts:177-189 | the handler, re-entered or not, is the execution of its call in the value model |
| `AlertManagers.AlertManager.OnStorageSizeReported` | src/alerting/alert-manager.ts:191-203 | stores the size and evaluates the storage rules, re-entered or not, and does nothing when there are none |
| `AlertManagers.AlertManager.Tick` | src/alerting/alert-manager.ts:135-144 | evaluates every rule once, in order, re-entered or not |
| `EditDistance.ComputeDistance` | src/cli/command-suggestions.ts:37-57 | the two-row loop computes the recursive Levenshtein distance |
| `EditDistance.ChainIsNoShorter` | src/cli/command-suggestions.ts:37-57 | no chain of single-character edits is shorter than the distance |
| `EditDistance.ShortestChain` | src/cli/command-suggestions.ts:37-57 | some chain of edits is as short, so the distance is the least number of edits |
| `EditDistance.ZeroExactlyWhenEqual` | src/cli/command-suggestions.ts:37-57 | the distance is zero exactly on equal strings |
| `EditDistance.Symmetric` | src/cli/command-suggestions.ts:37-57 | the distance is symmetric |
| `EditDistance.TriangleInequality` | src/cli/command-suggestions.ts:37-57 | the distance satisfies the triangle inequality |
| `EditDistance.FindNearestCandidate` | src/cli/command-suggestions.ts:18-35 | a suggestion is given exactly when some candidate is within the limit, and it is the first at the least distance |
| `OutputTail.CaptureOutputTail` | scripts/check-coverage.ts:2547-2592 | for every chunking, the last min(total, cap) bytes of the stream, with the rest counted as truncated |
| `OutputTail.TailIsLongest` | scripts/check-coverage.ts:2547-2592 | what is kept is the longest end of the stream within the cap |
| `OutputTail.Evict` | scripts/check-coverage.ts:2568-2581 | the eviction loop terminates, keeps the newest bytes up to the cap and conserves the byte count |
| `OutputTail.JoinChunks` | scripts/check-coverage.ts:2584-2589 | fills the buffer with the concatenated chunks exactly |
| `LcovReport.ParseLcovFiles` | scripts/check-coverage.ts:2385-2484 | the loop with its counters computes the fold over the recognised lines |
| `LcovReport.TallyNext` | scripts/check-coverage.ts:2447-2469 | the counters, kept line by line, are the number of code lines that count, of those with hits, and the sums of the `FNF` and `FNH` lines |
| `LcovReport.PrintedReportParses` | scripts/check-coverage.ts:2434-2483 | a list of records, as lines, parses to what each record says on its own, the last of a path winning, whichever closing lines are omitted; stale allowances throw |
| `LcovText.PrintedTextParses` | scripts/check-coverage.ts:2385-2484 | so does its text, split at line breaks and recognised line by line, with any other lines among them |
| `LcovText.LineReadBack` | scripts/check-coverage.ts:2435-2470 | each printed line is recognised as what it was printed from, numbers included |
| `LcovText.DataExactly` | scripts/check-coverage.ts:2449-2451 | a data line is read exactly when it is two numbers with a comma between them and nothing or a further field behind, and counts as malformed otherwise |
| `LcovText.DataIsRead` | scripts/check-coverage.ts:2449-2451 | then the numbers read are those two |
| `LcovText.ValueIsPositional` | scripts/check-coverage.ts:2450-2451 | digits count by their place in decimal notation |
| `LcovText.LinesRejoin` | scripts/check-coverage.ts:2434-2434 | the lines hold no line break, and joined by line breaks they are the text |
| `LcovReport.ParseConserves` | scripts/check-coverage.ts:2395-2424 | in every parsed report each total is its hits plus its misses |
| `LcovMeaning.EveryReportIsRead` | scripts/check-coverage.ts:2385-2484 | whatever the lines: it throws exactly when some hit line must be uncovered, listing those in order; else exactly the named, non-generated files are listed, each with the counts of its last record: lines that count, hit and missed, functions less the allowance, and covered exactly when nothing is missed |
| `LcovReport.AllowanceForgives` | scripts/check-coverage.ts:2404-2423 | in every report, for every file, an allowance of k functions forgives exactly min(k, misses) and changes nothing about lines |
| `TextEdits.ReplacementsAreSimultaneous` | scripts/migrate-import-paths.ts:246-256 | compatible replacements in any order give the left-to-right simultaneous substitution, of those that start together the one listed later first |
| `TextEdits.CompatibleExactly` | scripts/migrate-import-paths.ts:246-256 | what is folded, read backwards, is an order to copy in exactly when the replacements are in range, do not overlap, and share a start only with insertions listed later |
| `TextEdits.SortedIsArranged` | scripts/migrate-import-paths.ts:247-248 | the sorted list, read backwards, is in order of start with ties in the reverse of their listed order |
| `TextEdits.SeparateAreArranged` | scripts/migrate-import-paths.ts:246-256 | disjoint replacements with different starts are compatible, and any arrangement by start will do |
| `Sorting.SortByStable` | scripts/migrate-import-paths.ts:247-248 | sorting leaves elements that the comparator does not tell apart in their listed order |
| `TextEdits.SameStartOverwrites` | scripts/migrate-import-paths.ts:246-256 | a replacement listed after an insertion at its start overwrites the insertion |
| `TextEdits.CreateDiffRanges` | scripts/migrate-import-paths.ts:273-290 | for ascending changed lines the ranges cover exactly the clipped context windows and leave a gap of at least one line between neighbours |
| `ArgumentScanner.ScanArguments` | scripts/check-definition-vocabulary.ts:69-102 | collects up to the first unquoted parenthesis that closes the call, or to the end of the text |
| `ArgumentScanner.ScannersAgree` | scripts/check-definition-vocabulary.ts:75-139 | the two scanners, each with its own bookkeeping, are in the same quoting state after any text |
| `ArgumentScanner.LiteralIsQuoted` | scripts/check-definition-vocabulary.ts:75-95 | a string literal is quoted from its opening to its closing quote, whatever brackets, commas and escaped quotes it holds, and the scan is unquoted behind it |
| `ArgumentScanner.CutsAreTopLevel` | scripts/check-definition-vocabulary.ts:63-155 | seen from the file, each cut is an unquoted comma, outside all brackets opened since the call exactly when no bracket before it is unmatched, by kind, and then the cuts are exactly such commas |
| `ArgumentScanner.StackCounts` | scripts/check-definition-vocabulary.ts:141-142 | the splitter's depth is the number of open brackets, matched by kind, less the unmatched closings |
| `ArgumentScanner.StrayBracketCutsInside` | scripts/check-definition-vocabulary.ts:141-148 | a stray closing bracket makes the splitter cut inside the next pair |
| `ArgumentScanner.MismatchedBracketCutsInside` | scripts/check-definition-vocabulary.ts:141-148 | a closing bracket of another kind makes the splitter cut inside the open one |
| `ArgumentScanner.PiecesRejoin` | scripts/check-definition-vocabulary.ts:122-151 | the untrimmed pieces rejoin to the source |
| `ArgumentScanner.SplitTopLevelArguments` | scripts/check-definition-vocabulary.ts:115-155 | returns every piece trimmed, except a last one with nothing in it |
| `SnapshotCodec.SerializeSnapshot` | scripts/regenerate-trace-fixtures.ts:44-74 | computes the size first and fills the buffer exactly with the encoding |
| `SnapshotCodec.EncodedLength` | scripts/regenerate-trace-fixtures.ts:49-54 | the precomputed size is the length of the encoding |
| `SnapshotCodec.SnapshotLayout` | scripts/regenerate-trace-fixtures.ts:44-74 | the count comes first, and each entry is its key behind its length and its value behind its length, the lengths in four bytes with the lowest first |
| `SnapshotCodec.SnapshotRoundTrip` | tests/checkpoint-compat/checkpoint-compat.test.ts:26-67 | the reader's loop recovers every list of encoded entries whose count and lengths are below 2^32 |
| `SnapshotCodec.SnapshotMapRoundTrip` | tests/checkpoint-compat/checkpoint-compat.test.ts:50-66 | the reader's map holds, for each key, the value written last under it, whenever the decoder undoes the encoder on the keys |
| `SnapshotCodec.SnapshotReadBack` | tests/checkpoint-compat/checkpoint-compat.test.ts:26-67 | whatever the reader accepts is exactly what the writer writes for the entries it returns |
| `SnapshotCodec.TrailingExactly` | tests/checkpoint-compat/checkpoint-compat.test.ts:61-63 | the reader complains of trailing bytes exactly when a snapshot ends before the bytes do |
| `SnapshotCodec.CutShort` | tests/checkpoint-compat/checkpoint-compat.test.ts:30-48 | every snapshot cut short is refused, as ended in a uint32 exactly when the cut is in the count or in a length, else as ended in a field |

## Left out

- The durable engine, storage, workers, signals, leases and schedulers.
- Building the import graph: file discovery and the TypeScript syntax walk; the graph is an input, and `toRepositoryPath` is a parameter.
- Reading and writing the allowlist file, its JSON validation, and the messages the gate prints.
- String order is by Dafny characters; JavaScript compares UTF-16 code units, which differs only for characters beyond the Basic Multilingual Plane.
- The text of emitted TypeScript, `emitPropertyKey` and `emitRegistryDeclaration`: types are trees, and the set that removes repeated union members compares trees, not text.
- `__proto__` as a schema key, which JavaScript's assignment in `projectNodeForTypeBranch` treats specially.
- Schema keywords outside those with a stated meaning are an arbitrary assertion in soundness and absent in precision.
- EmitterPrecision.Precision: speaks of schemas without `oneOf`, `integer`, object literals, typed further members beside named ones, closed objects that require undeclared keys, or degradation, because the emitted type is wider there; `EmitterMeaning.EmissionIsExact` says how much wider, for every schema.
- AlertHistory.ManagerRefinesHistory: the condition is exact for the window an evaluation reads; for its value and status alone it is sufficient, since a wrong window may give them by chance.
- OperationSchemas.NodeSound: that prefix elements satisfy `items` is sufficient; `OperationSchemas.DeparturesAreExact` gives the exact condition.
- Replacements that overlap, which have no simultaneous reading.
- Alias names: `nameFor` is a parameter, so the FNV-1a hash and the hint text are not modelled; a node stands for its own canonical key.
- The text of the operation client, its operation tables, and formatting.
- Webhooks, logging, the interval, disposal and `parseDuration` of the alert manager; window lengths are non-negative integers of milliseconds.
- Floating point and NaN: rates, percentiles and sizes are exact reals.
- Clock readings, and the calls listeners make during a dispatch, are parameters. The order in which several listeners receive one notice is not modelled.
- `summarizeCoverageFiles`, and the allowance layers and tables: the allowance map is a parameter.
- `FNF` and `FNH` lines whose count has a sign, a space before it or no digits, where the source would add a negative number or NaN.
- The pattern that finds a call's receiver, and `trim`, which is a parameter.
- The UTF-8 encoder and decoder of snapshot keys, which are parameters.
- Command-line parsing, completions, clients, and the build, packaging and documentation scripts.
