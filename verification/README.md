# Cluster administration, modelled and proved in Dafny

This project models four parts of the administration code of a cluster product and proves properties of them over
all inputs, all runs and all interleavings. Run `dafny verify dfyconfig.toml` to check it.

**Unifying schema references** (`Schema*.dfy`). `TypingsGenerator.fix_anomalies` takes a JSON Schema whose definitions
have long names (`package__module__Model`), files each under its short name, rewrites every `$ref` into the table and
drops the long names. The table is a mutable dict whose values are shared objects: an alias is the same object, so
the second pass visits it twice. `SchemaFixer` keeps this on the heap; the specification works on values. The meaning
of a schema is the tree got by replacing each reference to a definition, `#/$defs/Name`, by that definition, cut off
at any depth, so that cyclic schemas have one too; other references stand for themselves. `SchemaMeaning` defines it,
`SchemaPreservation` says exactly when it is preserved.

**Index signatures** (`IndexSignatures.dfy`, `InterfaceTrees.dfy`, `InterfaceFilters.dfy`). `remove_index_signatures`
is an automaton with two flags and a counter over the lines of a file. It is compared with the filter it is meant to
be, on syntax trees with objects nested to any depth.

**Teardown** (`Teardown*.dfy`). `DeleteCluster` finds the stacks of a cluster and deletes them phase by phase; a polling
loop waits for each phase, and resubmits failed deletions out of a budget of three shared by the whole run. The
environment is an adversary: its answers are arbitrary functions of the whole history of requests and answers. The
history is part of the state, and every method keeps it `Sound`: each answer in it is the one the environment gives
after what came before, and each request has its reason. The results are stated about those answers; a resubmission,
for instance, is a deletion asked for after a poll of its phase. The polling loop is bounded under one assumption,
`Responsive`: after `b` consecutive polls of a stack without a terminal status the next one has one. It takes nothing
from the other results (`EveryHistoryIsResponsive`); `b` and `m` are ghost.

**Deployment waves** (`Deployment*.dfy`). `DeploymentHelper` filters the modules, sorts them by priority, groups them
into waves and deploys each wave with one thread a module. The optimized branch of `invoke` is a transition system:
starts, joins, refresh and checks of the main thread, and threads that finish in any order. `DeploymentHistory` tells
its runs by their steps alone. Module priority is an arbitrary function of the module name.

**Cluster settings** (`Settings*.dfy`, `Config*.dfy`). The custom-resource handler writes a stack's settings into a
key-value-version table, one item at a time, and any operation may raise. `SettingsLifecycle` treats a crash and the
roll-back after it; `SettingsInterleaving` lets the stacks of several modules be created, updated, deleted, fail, be
rolled back and retried with their operations interleaved. `ConfigFlatten` to `ConfigRoundTrip` model
`traverse_config` and its inverse, `ConfigKeys` says when entries and keys coincide; `ConfigDiff` models the rows of
`diff_config` and the write loop of `set_config`.

## Where the code and its documentation differ

The model follows the code.

- The docstring of `fix_anomalies` names unique class names as its only caveat. A reference in a list directly inside
  a list, or in a definition that is not an object, is not rewritten either, and dangles afterwards
  (`NestedListChangesMeaning`). Any reference that mentions the definitions key is taken to name its last piece: one
  into another document, or one that goes on into a definition, is moved when that piece is the long name of a
  definition (`MovedExactlyWhen`, `ForeignReferenceIsMoved`, `PointerIntoDefinitionIsMoved`). A placeholder is filed
  under a short name, but the reference it is for keeps its long one and stays unresolved (`PlaceholderNeverResolves`).
- The docstring of `remove_index_signatures` says that the signatures of interfaces are removed and those in nested
  objects kept. The counter is set, not increased, when an inner object opens, so a signature that follows it in the
  outer object is removed (`DeepObjectLosesItsSignature`). A bare brace that closes a nested object passes for the end
  of the interface, so the interface's own signatures after it are kept (`BareBraceHidesTheInterface`).
- The polling loop takes a ValidationError raised by a resubmission, or by the clean-up beside it, for a stack that is
  gone (`RejectedRequestPassesForGone`). Its result True therefore means gone only if no request was rejected
  (`GoneExactlyWhen`).
- The message of `traverse_config` forbids commas in keys; only dots and colons are looked for (`RaisesExactlyWhen`).
- A blank key at the top of a configuration vanishes from the paths below it, so entries can clash
  (`BlankSectionClashes`).
- A new diff after `set_config` wrote every local entry can show more than deletions: it strips the keys it reads, the
  table does not (`KeysThatReadTheSame`).

## Model

| member | source | states |
|---|---|---|
| SchemaPreservation.PreservedExactlyWhen | tasks/tools/typings_generator.py:205-272 | main result: on a schema in which every pointer into the table names a definition, every definition unfolds to the same tree in the output, placeholders included, to every depth and with recursion, if and only if definitions with one short name mean the same and no surviving definition hides a long reference where the rewriting does not look, or has a reference moved that names no definition |
| SchemaPreservation.MeaningOfRefs | tasks/tools/typings_generator.py:205-272 | under that condition any reference that resolves, and any part of the schema the rewriting reaches (the properties for instance), unfolds to the same tree before and after |
| SchemaMeaning.MovedExactlyWhen | tasks/tools/typings_generator.py:225-235 | a reference is moved if and only if it mentions the definitions key, its last piece is a long name and the short name of that is known, whatever it points at |
| SchemaClosure.CaveatSuffices | tasks/tools/typings_generator.py:178-194 | the caveat of the docstring suffices, when every reference that mentions the definitions key names a definition: definitions with one short name that become equal once rewritten (unique class names in particular) mean the same, however the schema recurs, so meaning is preserved |
| SchemaClosure.ClosedStaysClosed | tasks/tools/typings_generator.py:205-272 | a closed schema gets no placeholder, and stays closed if and only if no survivor hides a long reference; likewise for the properties |
| SchemaPreservation.NoLongNameLeft | tasks/tools/typings_generator.py:257-272 | whatever the input, no key containing `__` is left, placeholders included, and each is its own short name |
| SchemaRerun.RerunChangesNothingExactlyWhen | tasks/tools/typings_generator.py:198-272 | a second run on the output changes nothing if and only if neither a surviving definition nor the properties held a reference the first run could not move (which closed input never does) |
| SchemaRewriting.FixValueIdempotent | tasks/tools/typings_generator.py:217-255 | an aliased definition is visited twice: the second visit of any value changes nothing |
| SchemaRewriting.ProblemsStable | tasks/tools/typings_generator.py:236-237 | and it reports the same unresolved references as the first |
| SchemaRewriting.FixRefTarget | tasks/tools/typings_generator.py:225-235 | a rewritten reference points at the short name of the old target when that can be resolved, at the old target otherwise, and other references are left alone |
| SchemaRewriting.PlaceholderNeverResolves | tasks/tools/typings_generator.py:231-272 | a reference to a long name resolves after the pass if and only if it was not problematic: adding the placeholder does not resolve it |
| SchemaRewriting.FixContextIsCoherent | tasks/tools/typings_generator.py:209-217 | after the first pass every long key is mapped to its short name, and that name is in the table |
| SchemaNames.ShortNameExactlyWhen | tasks/tools/typings_generator.py:212 | the short name of `p__name` is `name`, when that has no double underscore, if and only if `p` ends with an even number of underscores (none, for instance) |
| SchemaNames.DefinitionIsRenamed | tasks/tools/typings_generator.py:209-235 | main result in plain terms: the definition filed under `p__name` is gone from there and, if no other definition claims the name, found under `name` with its references rewritten; and a reference `#/$defs/p__name` becomes `#/$defs/name` |
| SchemaNames.SurvivorDenotes | tasks/tools/typings_generator.py:210-217 | a surviving name denotes the definition that had it, or else the first one, in order, with that short name |
| SchemaNames.PlaceholderIs | tasks/tools/typings_generator.py:262-272 | any other name holds the placeholder, as written there, of a reference to a long name that could not be resolved |
| SchemaTable.FinalOrderNames | tasks/tools/typings_generator.py:210-217 | the names that survive are exactly the short names of the original keys, each its own short name; so the clean-up deletes no short name |
| SchemaTable.FinalOrderDistinct | tasks/tools/typings_generator.py:209-260 | no name is filed twice |
| SchemaRefs.FixDirectRef | tasks/tools/typings_generator.py:224-237 | the `$ref` member and the set of problematic references after one object is looked at |
| SchemaRefs.FixRefsInObject | tasks/tools/typings_generator.py:220-246 | the recursive in-place rewriting computes the specified value and the specified set of problematic references; it raises no exception on the values admitted |
| SchemaRefs.FixRefsInMember | tasks/tools/typings_generator.py:239-246 | one member of an object: objects and the objects in a list are rewritten, lists in lists are not |
| SchemaFixer.AliasShortNames | tasks/tools/typings_generator.py:209-217 | the first pass on the mutable table: the mapping, the names in order, and the very same object filed under a second name |
| SchemaFixer.FixAllRefs | tasks/tools/typings_generator.py:248-255 | the second pass over shared objects: each object, visited once or twice, holds its rewritten original value; the problems are those of all objects together |
| SchemaFixer.DropLongNames | tasks/tools/typings_generator.py:257-260 | the clean-up keeps the short names in their order and the objects filed under them |
| SchemaFixer.AddPlaceholders | tasks/tools/typings_generator.py:262-272 | one placeholder for each short name that is not there, in any order; nothing else changes |
| SchemaFixer.FixAnomalies | tasks/tools/typings_generator.py:198-272 | the whole pass on the heap, over `$defs` if the schema has that key, else over `definitions`: the same objects under the surviving names, each rewritten as specified, with the placeholders after them; nothing happens without definitions |
| SchemaExamples.ClashingNamesChangeMeaning | tasks/tools/typings_generator.py:193-194 | a closed schema with two models of one class name whose meaning changes |
| SchemaExamples.NestedListChangesMeaning | tasks/tools/typings_generator.py:243-246 | a closed schema with unique names whose meaning changes, through a reference in a list inside a list |
| SchemaExamples.ForeignReferenceIsMoved | tasks/tools/typings_generator.py:227-230 | a schema whose meaning changes through a reference into another document, which is made to point at a definition of this one |
| SchemaExamples.PointerIntoDefinitionIsMoved | tasks/tools/typings_generator.py:227-235 | a pointer that goes on into a definition, to a number there, and points at another definition afterwards, a string |
| PyStrings.LastPieceIsFree | tasks/tools/typings_generator.py:212 | the last piece of a split never contains the separator |
| PyStrings.StripExactlyWhen | source/idea/idea-data-model/src/ideadatamodel/model_utils.py:37-41 | stripping a line gives a text that is not empty if and only if the line is that text between blanks |
| PyStrings.SpacesAndWords | tasks/tools/typings_generator.py:472 | which ASCII characters are blanks, and which are word characters |
| IndexSignatureLines.HeaderExactlyWhen | tasks/tools/typings_generator.py:472 | a line opens an interface if and only if it is, after blanks, `export interface `, a name of word characters, a space, a brace, and anything |
| IndexSignatureLines.SignatureExactlyWhen | tasks/tools/typings_generator.py:508 | a line is an index signature if and only if it is `[k: string]: unknown;` between blanks |
| IndexSignatures.Advance | tasks/tools/typings_generator.py:470-514 | the body of the loop computes the automaton's transition and whether the line is kept |
| IndexSignatures.RemoveIndexSignatures | tasks/tools/typings_generator.py:451-521 | the loop returns the lines the automaton keeps, and the removed count it reports is the number of lines dropped |
| IndexSignatures.DroppedOccurrences | tasks/tools/typings_generator.py:452-521 | each dropped line accounts for exactly one occurrence of the signature in the text |
| IndexSignatures.RunDropsOnlySignatures | tasks/tools/typings_generator.py:504-514 | on any lines at all the output is a subsequence that drops only index-signature lines |
| IndexSignatures.SecondPassDropsNothing | tasks/tools/typings_generator.py:463-514 | a second pass drops nothing |
| InterfaceTrees.MachineIsTreeFilter | tasks/tools/typings_generator.py:463-514 | on the printed lines of interfaces with objects nested to any depth, the automaton prints a filter of the syntax tree |
| InterfaceFilters.TextFilterExactlyWhen | tasks/tools/typings_generator.py:442-514 | main result: that is the documented filter if and only if in no interface a nested signature comes after an object nested beside it, or one of the interface's own after an object closed by a bare brace; the numbers of lines removed and kept too many account for the difference in length |
| InterfaceFilters.NestedKeptExactlyWhen | tasks/tools/typings_generator.py:477-491 | in a nested object everything is kept if and only if no signature comes after an object nested there, at any depth, up to the first bare closing brace |
| InterfaceFilters.OneLevelDeepIsExact | tasks/tools/typings_generator.py:477-491 | with objects nested one level deep and closed by more than a brace the condition holds |
| InterfaceFilters.DeepObjectLosesItsSignature | tasks/tools/typings_generator.py:478-482 | a file with objects nested two levels deep whose nested signature is removed, against the docstring |
| InterfaceFilters.BareBraceHidesTheInterface | tasks/tools/typings_generator.py:493-502 | a file with a nested object closed by a bare brace, after which the interface's own signature stays |
| Teardown.DeleteCluster.CheckStackDeletionStatus | source/idea/idea-administrator/src/ideaadministrator/app/delete_cluster.py:500-564 | main result: the polling loop ends; over names none of which occurs more than m times, it takes at most (r + m)(b + 1) rounds when it resubmits r deletions, however many stacks there are; it requests a deletion only for a stack just seen to have failed and while fewer than three were resubmitted in the run, and the attempt counter is the number of deletions so asked for; the stacks given are exactly those its answers settled; the result is True if and only if no poll saw a failed deletion with the budget spent; every stack was seen gone if and only if, besides, no request was answered with a ValidationError; an early end has its reason in the last answer |
| TeardownSteps.PollStepKeeps | source/idea/idea-administrator/src/ideaadministrator/app/delete_cluster.py:506-549 | one poll, whatever is answered: the history stays one the environment gives rise to, in which requests are made for a reason; the deletions asked for after a poll equal the attempt counter, which stays within 3; and the stack is dropped exactly when an answer settles it: gone, rejected, or failed with the budget spent |
| TeardownNames.PollByStatus | source/idea/idea-administrator/src/ideaadministrator/app/delete_cluster.py:506-549 | one poll told by the status the stack is in, case by case: gone; failed with three resubmissions behind it; failed, or on its way, with the clean-up of network interfaces for the stack of the analytics module, and a resubmission if failed |
| TeardownNames.StacksAreSorted | source/idea/idea-administrator/src/ideaadministrator/app/delete_cluster.py:338-349 | each list holds the stacks that were found, as often as they were, that belong there by their names: neither empty nor the bootstrap stack; of the module `cluster`; else of the module `identity-provider`; else neither |
| TeardownNames.FoundInOrder | source/idea/idea-administrator/src/ideaadministrator/app/delete_cluster.py:331-349 | and in the order in which they were found |
| TeardownNames.ListingInOrder | source/idea/idea-administrator/src/ideaadministrator/app/delete_cluster.py:331-335 | the stacks are described in the order of the resources |
| TeardownNames.FlatInOrder | source/idea/idea-administrator/src/ideaadministrator/app/delete_cluster.py:301-362 | page after page |
| TeardownNames.RequestsInOrder | source/idea/idea-administrator/src/ideaadministrator/app/delete_cluster.py:667-670 | the requests of a phase are made in the order of its stacks, up to the first that does not end normally |
| TeardownNames.KindIs | source/idea/idea-administrator/src/ideaadministrator/app/delete_cluster.py:431-465 | a stack is of a module if it has the name of one of its rows, or the name of the cluster followed by that of the module |
| TeardownSteps.DeletionIsConsented | source/idea/idea-administrator/src/ideaadministrator/app/delete_cluster.py:394-421 | at every deletion request of a whole run the stack had just been found and, if it was protected, its protection was lifted, which was forced or confirmed |
| TeardownSteps.SubmitIsQuiet | source/idea/idea-administrator/src/ideaadministrator/app/delete_cluster.py:394-421 | a deletion request concerns no other stack and counts for nothing but at its end, where a deletion is asked for or a request rejected |
| TeardownSteps.SubmitAsks | source/idea/idea-administrator/src/ideaadministrator/app/delete_cluster.py:394-421 | a request polls nothing, and ends normally if and only if the stack was not there or its deletion was accepted |
| TeardownSteps.PollStepStops | source/idea/idea-administrator/src/ideaadministrator/app/delete_cluster.py:507-549 | a poll ends the run early only because of its last answer |
| Teardown.DeleteCluster.DeleteCloudFormationStack | source/idea/idea-administrator/src/ideaadministrator/app/delete_cluster.py:394-421 | the method performs the requests and prompts of the specification, in that order |
| Teardown.DeleteCluster.PollStack | source/idea/idea-administrator/src/ideaadministrator/app/delete_cluster.py:507-549 | the `try` block with its `except` performs the specified step |
| Teardown.DeleteCluster.PollRound | source/idea/idea-administrator/src/ideaadministrator/app/delete_cluster.py:504-549 | one round polls every pending stack once, with the answers the environment gives, and keeps the ledger of polls, terminal answers and resubmissions of each stack |
| TeardownPolling.RoomForARound | source/idea/idea-administrator/src/ideaadministrator/app/delete_cluster.py:503-564 | the numeric bound: while a stack is pending, fewer rounds have passed than the bound allows |
| TeardownPolling.PendingLeavesRoom | source/idea/idea-administrator/src/ideaadministrator/app/delete_cluster.py:503-564 | a stack still pending with q quiet polls has been polled at most (its terminal polls)(b + 1) + q times, and each terminal poll was paid for by a resubmission or an occurrence |
| TeardownBudget.SoundWithinBudget | source/idea/idea-administrator/src/ideaadministrator/app/delete_cluster.py:522-530 | over a whole history: each lookup and deletion after a poll of its phase is for the stack that poll saw failed, with fewer than three resubmissions before it; a deletion asked for after a poll is a resubmission and the other way round; their number is the attempt counter |
| TeardownBudget.PollingResubmits | source/idea/idea-administrator/src/ideaadministrator/app/delete_cluster.py:500-564 | the polling loop requests deletions in no other way |
| TeardownBudget.AskingsCounted | source/idea/idea-administrator/src/ideaadministrator/app/delete_cluster.py:522-530 | and each deletion it asks for is counted |
| TeardownBudget.BudgetNeverShrinks | source/idea/idea-administrator/src/ideaadministrator/app/delete_cluster.py:522-530 | the deletions asked for after a poll only grow along a history |
| Teardown.RemoveAll | source/idea/idea-administrator/src/ideaadministrator/app/delete_cluster.py:551-552 | `remove` in a loop takes the settled occurrences out of the pending ones, repeated names included |
| Teardown.DeleteCluster.FindCloudFormationStacks | source/idea/idea-administrator/src/ideaadministrator/app/delete_cluster.py:293-366 | the search makes exactly one description for each resource of the pages put end to end, in order, and finds the stacks described, by kind and in order; so page boundaries do not matter; it fails if and only if a description raises anything but a ValidationError, and then the fields keep their values |
| Teardown.DeleteCluster.DeleteStacks | source/idea/idea-administrator/src/ideaadministrator/app/delete_cluster.py:655-675 | a phase begins with exactly one request for each of its stacks, in order, until one does not end normally; after that deletions are requested within the budget only; it ends normally only when each stack was asked to be deleted or not there, before the first poll, and then left without being given up |
| Teardown.DeleteCluster.BootstrapPhase | source/idea/idea-administrator/src/ideaadministrator/app/delete_cluster.py:854-856 | the bootstrap stack is asked to be deleted once if that is confirmed, and nothing is if not |
| Teardown.DeleteCluster.Invoke | source/idea/idea-administrator/src/ideaadministrator/app/delete_cluster.py:992-1054 | main result over whole runs, whatever the environment answers and wherever the run stops: if the search fails nothing is deleted; otherwise the lists are the stacks the environment described, deletions were confirmed, only those stacks and the bootstrap stack are deleted, and before any cluster stack every ordinary and identity-provider stack was observed gone, before the bootstrap stack all of them, but for stacks a request about which was rejected; deletions are asked for at most once for each stack found, once for the bootstrap stack and three more times; all phases together take at most (3 + 3)(b + 1) rounds over distinct names; a run that reaches the end asked for every stack found; a run that ends early has a reason |
| TeardownOrder.PhaseKeepsOrder | source/idea/idea-administrator/src/ideaadministrator/app/delete_cluster.py:1026-1054 | deletions that are due keep the history ordered |
| TeardownOrder.TeardownIsOrdered | source/idea/idea-administrator/src/ideaadministrator/app/delete_cluster.py:1025-1054 | ordered by phases means ordered in terms of what the environment answered to each poll and request |
| TeardownOrder.EveryoneLeft | source/idea/idea-administrator/src/ideaadministrator/app/delete_cluster.py:501-564 | when all stacks given are settled and none given up, each of them left |
| TeardownOrder.GoneExactlyWhen | source/idea/idea-administrator/src/ideaadministrator/app/delete_cluster.py:501-564 | when the stacks given are those settled, all were seen gone, one poll for each, if and only if no poll since saw a failed deletion with the budget spent and no request was answered with a ValidationError |
| TeardownOrder.RejectedRequestPassesForGone | source/idea/idea-administrator/src/ideaadministrator/app/delete_cluster.py:523-547 | a failed stack whose resubmission raises a ValidationError leaves the loop as if it were gone, at no cost to the budget |
| TeardownOrder.StubbornStackPassesForGone | source/idea/idea-administrator/src/ideaadministrator/app/delete_cluster.py:523-547 | a concrete environment in which that happens to a stack that still exists |
| TeardownEnvironments.EveryHistoryIsResponsive | source/idea/idea-administrator/src/ideaadministrator/app/delete_cluster.py:500-564 | every history that fits some environment fits a responsive one as well, and the other way round; so the bound's assumption takes nothing from the results about order, budget and conservation |
| TeardownEnvironments.LateStepsAlike | source/idea/idea-administrator/src/ideaadministrator/app/delete_cluster.py:394-549 | and every step from a shorter history is the same in both |
| DeploymentOrder.StableSortSorts | source/idea/idea-administrator/src/ideaadministrator/app/deployment_helper.py:115 | the order is a permutation of the candidates, sorted by priority, in which modules of one priority keep their order |
| DeploymentOrder.SortedStableIsUnique | source/idea/idea-administrator/src/ideaadministrator/app/deployment_helper.py:115 | there is only one such order, so any stable sort computes it |
| DeploymentOrder.CandidatesAreItems | source/idea/idea-administrator/src/ideaadministrator/app/deployment_helper.py:96-113 | the candidates are the eligible modules with their priorities; each eligible id has one, and each id given is known |
| DeploymentOrder.CandidatesInOrder | source/idea/idea-administrator/src/ideaadministrator/app/deployment_helper.py:96-113 | the candidates are the ids given, in the order given and as often, without those of config modules and, unless upgrading, of deployed ones |
| DeploymentOrder.UnknownIdRaises | source/idea/idea-administrator/src/ideaadministrator/app/deployment_helper.py:97 | the loop raises if and only if some id is unknown, for the first of these |
| DeploymentOrder.OrderItems | source/idea/idea-administrator/src/ideaadministrator/app/deployment_helper.py:93-117 | every item of the order is an eligible module with its priority; so the second filter of the optimized order drops nothing |
| DeploymentOrder.WavesRefineOrder | source/idea/idea-administrator/src/ideaadministrator/app/deployment_helper.py:119-145 | put end to end the waves are the deployment order; each is non-empty and of one priority, and priorities strictly increase |
| Deployment.DeploymentHelper.InitializeClusterModules | source/idea/idea-administrator/src/ideaadministrator/app/deployment_helper.py:70-73 | no module is forgotten, those without a row keep what is known of them, and the last row of a module decides what is known of it |
| Deployment.DeploymentHelper.GetDeploymentOrder | source/idea/idea-administrator/src/ideaadministrator/app/deployment_helper.py:93-117 | the loop and the sort compute the specified order; an unknown id raises |
| Deployment.DeploymentHelper.GetOptimizedDeploymentOrder | source/idea/idea-administrator/src/ideaadministrator/app/deployment_helper.py:119-145 | the second loop, with its repeated filter, files that order into the specified waves |
| Deployment.DeploymentHelper.InvokeSequentially | source/idea/idea-administrator/src/ideaadministrator/app/deployment_helper.py:210-217 | the sequential branch deploys a prefix of the order, up to and including the first module that raises |
| DeploymentRuns.StepKeepsInvariant | source/idea/idea-administrator/src/ideaadministrator/app/deployment_helper.py:162-208 | every step of the main thread or of a deployment thread keeps the invariant |
| DeploymentHistory.SafetyOfRuns | source/idea/idea-administrator/src/ideaadministrator/app/deployment_helper.py:162-208 | main result, over all interleavings and told by the steps alone: running modules share one priority; the modules started are a prefix of the deployment order; each module of a smaller priority than one started has stopped, and a check after a refresh of its wave read it as deployed in the table as last refreshed |
| DeploymentHistory.AbortStops | source/idea/idea-administrator/src/ideaadministrator/app/deployment_helper.py:190-208 | once a deployment has aborted in a wave nothing happens any more, nothing runs, and the modules started are those of this wave and the waves before it; and the refresh after that wave failed, or a module of it was read with another status than deployed |
| DeploymentRuns.NoDeadlock | source/idea/idea-administrator/src/ideaadministrator/app/deployment_helper.py:183-208 | a run that is not over can always go on |
| DeploymentRuns.RunLength | source/idea/idea-administrator/src/ideaadministrator/app/deployment_helper.py:162-208 | a run has no more steps than its measure, and exactly that many if it finishes |
| DeploymentHistory.RunsTerminate | source/idea/idea-administrator/src/ideaadministrator/app/deployment_helper.py:162-208 | every deployment of n modules in m waves has at most 4n + m steps, can only stop finished or aborted, and if finished started all modules in order and read each as deployed |
| DeploymentHistory.RunIsRecorded | source/idea/idea-administrator/src/ideaadministrator/app/deployment_helper.py:162-208 | what the state records is what the steps say: a thread runs if it was started and has not finished, and the table is the first one overwritten by the rows of each refresh |
| SettingsHandler.SettingsToDelete | source/idea/idea-administrator/resources/lambda_functions/idea_custom_resource_update_cluster_settings/handler.py:106-110 | the keys of the old settings that the new ones no longer have |
| SettingsHandler.Tables.PutAll | source/idea/idea-administrator/resources/lambda_functions/idea_custom_resource_update_cluster_settings/handler.py:67-85 | the write loop performs its item updates, or stops at the first that raises |
| SettingsHandler.Tables.DropAll | source/idea/idea-administrator/resources/lambda_functions/idea_custom_resource_update_cluster_settings/handler.py:112-115 | the deletion loop performs its item deletions, or stops at the first that raises |
| SettingsHandler.PlanSteps | source/idea/idea-administrator/resources/lambda_functions/idea_custom_resource_update_cluster_settings/handler.py:45-115 | which operation comes where: the settings are written in order under the module and their key, then the row, then those no longer wanted are deleted; or all are deleted, then the row is written; with the rows written out |
| SettingsHandler.PlanRows | source/idea/idea-administrator/resources/lambda_functions/idea_custom_resource_update_cluster_settings/handler.py:51-64 | after any number of operations of a plan the module rows are as before, or the row of the module is the one just named; no other changes |
| SettingsHandler.Tables.Handle | source/idea/idea-administrator/resources/lambda_functions/idea_custom_resource_update_cluster_settings/handler.py:45-115 | an invocation performs the operations of its plan in order, all of them or exactly those before the one that raises, and reports which; a run that succeeds leaves the row `deployed` with the stack and version, or `not-deployed`; no other row changes |
| SettingsRuns.LastOpDecides | source/idea/idea-administrator/resources/lambda_functions/idea_custom_resource_update_cluster_settings/handler.py:45-115 | what an item is after any operations is decided by the last one on its key |
| SettingsRuns.VersionCountsWrites | source/idea/idea-administrator/resources/lambda_functions/idea_custom_resource_update_cluster_settings/handler.py:72-85 | the version of an item that was not there counts its writes since its last deletion |
| SettingsRuns.PlanLast | source/idea/idea-administrator/resources/lambda_functions/idea_custom_resource_update_cluster_settings/handler.py:45-115 | the last operation of a whole plan on a key: write what is wanted, delete what no longer is, leave the rest |
| SettingsRuns.NoLongerInOrder | source/idea/idea-administrator/resources/lambda_functions/idea_custom_resource_update_cluster_settings/handler.py:106-110 | the settings no longer wanted are those old ones whose key the new settings lack, in their order |
| SettingsRuns.OwnersDiffer | source/idea/idea-administrator/resources/lambda_functions/idea_custom_resource_update_cluster_settings/handler.py:70 | modules with distinct ids without dots own disjoint keys |
| SettingsLifecycle.RollbackRestoresExactlyWhen | source/idea/idea-administrator/resources/lambda_functions/idea_custom_resource_update_cluster_settings/handler.py:66-115 | after any operations at all on the keys of an update, a full run back restores values and sources of the whole table if and only if the keys only the update has were absent to begin with |
| SettingsLifecycle.CrashThenRollback | source/idea/idea-administrator/resources/lambda_functions/idea_custom_resource_update_cluster_settings/handler.py:66-115 | main result: an update that stops after any single step, followed by a full run of the opposite update: every old key has its old value, all other keys are untouched, and the table is restored under exactly that condition |
| SettingsInterleaving.PlanReaches | source/idea/idea-administrator/resources/lambda_functions/idea_custom_resource_update_cluster_settings/handler.py:45-115 | a complete run leaves exactly the new settings, from any table whose stack-written items of the module lie among the old and the new ones |
| SettingsInterleaving.EventKeepsInvariant | source/idea/idea-administrator/resources/lambda_functions/idea_custom_resource_update_cluster_settings/handler.py:45-115 | every event of any module keeps the invariant: what a run in progress would reach is already settled |
| SettingsInterleaving.LifecycleInvariant | source/idea/idea-administrator/resources/lambda_functions/idea_custom_resource_update_cluster_settings/handler.py:45-115 | main result, over all interleavings of single-item operations and all failures, roll-backs and retries: the stack-written items of an idle module are exactly its current settings (none after a deletion), and its row says `deployed` with the stack and version of the last completed run, or `not-deployed` |
| SettingsInterleaving.VersionsInHistory | source/idea/idea-administrator/resources/lambda_functions/idea_custom_resource_update_cluster_settings/handler.py:72-85 | over all such histories the version of an item that was absent at the start counts its writes since its last deletion |
| SettingsInterleaving.ForeignItemsUntouched | source/idea/idea-administrator/resources/lambda_functions/idea_custom_resource_update_cluster_settings/handler.py:45-115 | items that belong to none of the modules are never touched |
| SettingsInterleaving.ForeignRowsUntouched | source/idea/idea-administrator/resources/lambda_functions/idea_custom_resource_update_cluster_settings/handler.py:51-100 | nor are the rows of other modules |
| ConfigFlatten.TraverseConfig | source/idea/idea-administrator/src/ideaadministrator/app/config_generator.py:695-725 | the recursive method appends the specified entries to the caller's list, before an exception as well |
| ConfigFlatten.RaisesExactlyWhen | source/idea/idea-administrator/src/ideaadministrator/app/config_generator.py:702-706 | traversal raises if and only if a key at any depth contains a dot or a colon, also where the filter keeps nothing |
| ConfigValues.EntriesAreValues | source/idea/idea-administrator/src/ideaadministrator/app/config_generator.py:699-725 | main result in plain terms: there is an entry with this key and value if and only if the configuration holds a value other than a section at the path the key spells out, and the value is that one, or null if it is null, a text of blanks, an empty list or an empty dict |
| ConfigUnflatten.AnyValueIs | source/idea/idea-data-model/src/ideadatamodel/model_utils.py:313-389 | `get_any_value` keeps every value but the empty ones: numbers, booleans and lists with something in them as they are |
| ConfigFlatten.FilterCommutes | source/idea/idea-administrator/src/ideaadministrator/app/config_generator.py:720-733 | flattening with a key prefix is filtering the whole flattening by that prefix, in the same order |
| ConfigRoundTrip.RecoverableExactlyWhen | source/idea/idea-administrator/src/ideaadministrator/app/config_generator.py:695-725 | main result: an explicit unflatten recovers the configuration, empty values turned into null, if and only if no blank key at the top is bound to a non-empty dict |
| ConfigKeys.SameEntriesExactlyWhen | source/idea/idea-administrator/src/ideaadministrator/app/config_generator.py:695-725 | two configurations flatten to the same entries if and only if they have the same leaves once blank sections are spliced into the top |
| ConfigKeys.FlattenInjective | source/idea/idea-administrator/src/ideaadministrator/app/config_generator.py:695-725 | without blank sections, two configurations with the same entries differ only in what `value_exists` takes for empty |
| ConfigKeys.KeysDistinctExactlyWhen | source/idea/idea-administrator/src/ideaadministrator/app/config_generator.py:695-725 | main result: the flattened keys are pairwise distinct if and only if no path occurs twice once blank sections are spliced into the top |
| ConfigKeys.FlattenedKeysDistinct | source/idea/idea-administrator/src/ideaadministrator/app/config_generator.py:695-725 | so they are when there is no blank section |
| ConfigKeys.BlankSectionClashes | source/idea/idea-administrator/src/ideaadministrator/app/config_generator.py:710-713 | with a blank key at the top two entries can have one key |
| ConfigUnflatten.SplitOfJoin | source/idea/idea-administrator/src/ideaadministrator/app/config_generator.py:710-713 | splitting a dotted path gives its keys back |
| ConfigUnflatten.InsertLeaves | source/idea/idea-administrator/src/ideaadministrator/app/config_generator.py:699-725 | inserting the leaves of a configuration one by one rebuilds it |
| ConfigDiff.EntryReads | source/idea/idea-administrator/src/ideaadministrator/app_main.py:772-785 | how an entry reads: its key without blanks around it; a dash for an empty value, a text without blanks around it, any other value as rendered |
| ConfigDiff.BuildTexts | source/idea/idea-administrator/src/ideaadministrator/app_main.py:768-785 | the dict has the keys of the entries, and the last entry that reads as a key decides its value |
| ConfigDiff.DiffRows | source/idea/idea-administrator/src/ideaadministrator/app_main.py:787-811 | the two loops produce exactly one row, of the right status and values, for each key on which the maps differ, and none for any other |
| ConfigDiff.DiffIsPatch | source/idea/idea-administrator/src/ideaadministrator/app_main.py:787-811 | applying the rows to the database map gives the local map |
| ConfigDiff.DiffIsUnique | source/idea/idea-administrator/src/ideaadministrator/app_main.py:787-811 | the rows are determined by the maps, up to order |
| ConfigDiff.ConfigDb.SetConfigEntries | source/idea/idea-administrator/src/ideaadministrator/app_main.py:623-624 | the write loop replaces or adds one item an entry |
| ConfigDiff.RowsAfterWriting | source/idea/idea-administrator/src/ideaadministrator/app_main.py:623-624 | main result: once all local entries are written, a new diff has a DELETED row for exactly the keys only the database had, a MODIFIED row for exactly the keys that clash (two stored keys read the same, the first was written and the last has another value), and no ADDED row |
| ConfigDiff.AfterWritingOnlyDeletions | source/idea/idea-administrator/src/ideaadministrator/app_main.py:623-624 | so only DELETED rows remain if and only if no key clashes |
| ConfigDiff.KeysThatReadTheSame | source/idea/idea-administrator/src/ideaadministrator/app_main.py:772-775 | two stored keys that differ in blanks only, and do clash |

## Left out

- SchemaRefs.FixRefsInObject: rewrites a value and returns it; the objects below a definition are values here, only definitions and properties are shared objects. Its precondition `Safe` admits the values on which no exception is raised: a `$ref` that is a string, or a list or object in which the definitions key does not occur.
- SchemaPreservation.PreservedExactlyWhen: speaks of schemas without pointers that go on into a definition; what becomes of those is shown by `MovedExactlyWhen` and `PointerIntoDefinitionIsMoved`. References in a definition to other parts of the document count as text.
- ConfigDiff.AfterWritingOnlyDeletions: says nothing of local entries among which two different keys read the same once blanks are stripped.
- DeploymentHistory.SafetyOfRuns: the wave's check is a reading of the module table after the join; what a deployment does to that table is up to the environment.
- Teardown.DeleteCluster.Invoke: excepts stacks about which a request was rejected, since the code counts them as gone without having seen them so.
- Order of members inside JSON objects below the definitions table; references outside `properties` and the definitions; the other keys of the schema root.
- Reading, splitting into lines, joining and writing files; white space and word characters other than ASCII in `strip` and `\w`.
- The regular-expression passes of the typings generator (null unions, duplicate interfaces, copyright notice) and the removal of the master model.
- Stages of `invoke` that touch no stack (EC2 instances, user pools, backups, DynamoDB tables, log groups, S3): one event each, which may stop the run. The clean-up of network interfaces is one answer. Module rows without a stack name, sleeps, prompts' texts and printing.
- The guard that chooses the optimized branch (more than one module id), the no-op messages, and failures to start a thread. Reconnecting after an expired token is a refresh that succeeds or fails.
- Attributes of items and module rows that the handler does not write; settings values are strings; sending the CloudFormation response.
- The merge of files in `read_config_from_files`: it fills a dict key by key and would only add easy members.
- Sorting the rows of a diff for display; `str` of a value that is not a string is an arbitrary function.
- `ideasdk.utils.Utils`, `CdkInvoker`, `ClusterConfigDB` and `ModuleMetadataHelper` are not part of this model; the helpers of `Utils` are taken to behave as those of `ModelUtils`, and the database as a map.
- The rest of the repository: the web portal, infrastructure code, build and release tasks, and the other custom-resource handlers.
