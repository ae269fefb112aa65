# A verified model of xpk

xpk creates and updates GKE clusters for accelerators, submits workloads to them, and keeps executable Markdown
recipes of its own commands. Most of its code calls gcloud and kubectl; this project models the algorithms beneath
those calls, in Dafny, and proves what they are for. The answers of gcloud, kubectl, the shell and the user are
parameters: snapshots, oracles or return codes. The cluster is state that delete and create steps change.

| module | about |
|---|---|
| `Text`, `Decimal`, `Arithmetic` | the string and integer operations of Python that the code relies on, and a few facts about products |
| `Recipes`, `RecipesFixpoint`, `RecipeRuns` | the Markdown scanner, the block printer, the rewriter, the log parser and whole recipe runs |
| `Reservations`, `Capacity` | reservation links and paths; how many slices fit, and the iterator that hands the slots out |
| `NodePools`, `Reconciler`, `NodeVersion` | the desired pools, the reconciling run over a cluster, the version of new pools |
| `Topology`, `Catalogue`, `Admission` | topology texts and their generator, the catalogue of systems, the recorded ConfigMap and the admission of workloads |
| `WorkloadTable` | the workload table and the deletion that reads names back from it |
| `Commands`, `Hashing` | parallel batches of commands; the base-36 text of a hash |
| `Kueue` | the upgrade protocol, over all sequences of runs with failures |

Loops of the source are methods, proved equal to a recursive function or against a stated property; the objects
whose state changes (`RecipeFile`, `ProcessTable`, `SlotIterator`, `Cluster`, `KueueCluster`) are classes. A set of
strings (tags, pool names) is kept as its sorted list, so that two sets are equal exactly when the lists are.

What the proofs show the code does not do, and when:

- Updating a recipe is stable if and only if each new output has no `-->`, no replaced command ends in three
  backticks, and no kept block leaves a comment open in front of a replaced one (`RecipesFixpoint.UpdateStable`);
  neither of the first two conditions can be dropped (`RecipesFixpoint.UpdateTwiceFirstBlock`).
- A reservation called `projects` in the cluster's own project is printed as a path that is rejected
  (`Reservations.ParseOfPath`, `Reservations.AmbiguousLink`).
- Without forced sub-block targeting, a reservation and its blocks as a whole are together offered more than it
  holds if and only if two different listed links share it (`Capacity.UnforcedOversubscription`).
- The choice of the node version compares versions as plain strings. Over a pool of releases it does what its comment
  (src/xpk/core/nodepool.py:613-614) asks for, whenever the upper side comes first, if and only if the texts of any
  two of them compare as the releases do (`NodeVersion.MeetsCommentExactly`); for master 1.30.9 it takes 1.30.11
  rather than 1.30.10 (`NodeVersion.TenthPatchIsMissed`). Where the orders agree, it meets its comment if and only if
  no release is on the upper side or one is listed first (`NodeVersion.LoopMeetsComment`).
- The super-slicing check accepts topologies with a side beyond 256, which the generator never lists
  (`Topology.CheckAgreesWithGenerator`, `Topology.LongTopologyIsMissed`).
- A topology written like a core count loses its key to another topology that wins that count
  (`Catalogue.CataloguedExactly`, `Catalogue.CollisionExample`); topologies with an `x` never do.
- A Kueue upgrade whose last deletion fails leaves a cluster that no later run changes (`Kueue.WedgeIsReached`,
  `Kueue.WedgedForever`). Some sequence of runs lowers the deployed version if and only if a target is followed by a
  lower one with a version between them that is below the breaking version (`Kueue.LoweredExactly`).

## Model

| member | source | states |
|---|---|---|
| Recipes.MatchFence | tools/recipes.py:66-68 | a match of the block pattern at the front of a text lies inside it and is at least as long as both fences, so the scanner always advances |
| Recipes.ExtractInOrder | tools/recipes.py:65-77 | the scanned blocks lie in order, without overlap, inside the text |
| Recipes.ReconstructContent | tools/recipes.py:147-159 | the loop over blocks and results emits exactly the splice: each gap, each printed block, and the rest of the text; extra blocks or results are dropped as by zip |
| Recipes.SpliceIsRewrite | tools/recipes.py:147-181 | splicing the golden blocks of any document equals an independent rewriter that walks the text once, replaces each golden block while results last, and copies every other character |
| RecipesFixpoint.FailedFence | tools/recipes.py:66-68 | once an opening fence fails to match, nothing behind it matches either |
| RecipesFixpoint.FrontKept | tools/recipes.py:147-159 | an update changes nothing before the end of the first opening fence |
| RecipesFixpoint.NoMatchKept | tools/recipes.py:65-77 | a position where no block begins still begins none after the update |
| RecipesFixpoint.PrintedBlockParses | tools/recipes.py:65-77 | a printed block, whatever text follows, is scanned as one block of exactly its own length if and only if its output has no comment end and its command does not end in three backticks; its command and tags are read back |
| RecipesFixpoint.KeptBlockParses | tools/recipes.py:65-77 | a block that is not replaced is scanned after the update as before, if and only if it does not leave an unclosed comment in front of a block that is replaced |
| RecipesFixpoint.UpdateStable | tools/recipes.py:147-194 | for every document and all outputs: scanning the updated document gives the same blocks, each where it was written or moved, if and only if the update is safe; safety can be checked before the update |
| RecipesFixpoint.ImagesSame | tools/recipes.py:57-62 | moving blocks keeps their number, order, commands and tags |
| RecipesFixpoint.UpdateFixpoint | tools/recipes.py:162-194 | after a safe update, updating again with the same outputs changes nothing |
| RecipesFixpoint.UpdateTwiceFirstBlock | tools/recipes.py:142-159 | for every document that begins with a golden block, and one output for it: the second update changes nothing if and only if the output has no comment end and the command does not end in three backticks |
| RecipesFixpoint.OutsideSurvives | tools/recipes.py:147-159 | any update, safe or not and with any number of results, keeps the text outside the replaced blocks verbatim and prints each output where its block is |
| RecipesFixpoint.GoldenImages | tools/recipes.py:179-181 | selecting the golden blocks commutes with the update |
| RecipeRuns.ExtractScriptOutputs | tools/recipes.py:114-139 | the cursor loop returns the outputs and the failure flag of the recursive log parser; the cursor strictly advances |
| RecipeRuns.ParseOfRender | tools/recipes.py:114-139 | parsing inverts the markers: for any blocks with bodies free of the end marker and noise free of the start marker, the stripped bodies come back in order, and the run counts as failed exactly if the log stops inside a block, whose partial body is the last result |
| RecipeRuns.EveryLogIsClean | tools/recipes.py:114-139 | every log whatsoever is such a sequence of blocks and noise |
| RecipeRuns.ScriptNeedsCommandsOnly | tools/recipes.py:80-99 | the script depends only on the commands of the blocks |
| RecipeRuns.ScriptShape | tools/recipes.py:80-99 | the parts of the script by position: the error mode, the dry-run wrapper for golden and update only and before the first command, then for each block start marker, shown command, command, end marker |
| RecipeRuns.EscapedReadsBack | tools/recipes.py:92-95 | the escaped command, read as a quoted shell word, is the command |
| RecipeRuns.OutputsOfRun | tools/recipes.py:80-139 | a shell that answers each echo line with its text and any other part with output free of the end marker: the reported results are, for the selected blocks in order, each command with what it printed, stripped, up to the first command that fails; the run counts as failed exactly if one does |
| RecipeRuns.SelectedBlocks | tools/recipes.py:178-181 | run mode takes every block; the other modes take, in order, exactly the blocks tagged #golden |
| RecipeRuns.RecipeFile.Process | tools/recipes.py:162-215 | update writes the new text and passes; golden passes if and only if the text would not change; run passes if and only if no block was cut short; only update changes the file |
| RecipeRuns.UpdateKeepsOutputs | tools/recipes.py:80-194 | after a safe update the same script is built, so the same shell gives the same outputs |
| RecipeRuns.UpdateThenVerify | tools/recipes.py:162-215 | updating a recipe and then verifying it with the same shell passes, and updating it again changes nothing, provided the update is safe |
| Decimal.ParseOfStr | src/xpk/utils/topology.py:37 | int(str(n)) is n |
| Decimal.StrIntInjective | src/xpk/core/system_characteristics.py:260 | different integers are printed differently |
| Hashing.HashString | src/xpk/utils/objects.py:64-88 | the loop with divmod, padding and lower-casing yields exactly the last `length` base-36 digits, 64 of them without a length or with a negative one |
| Hashing.DecodeOfBase36 | src/xpk/utils/objects.py:77-88 | the digits decode to the hash modulo 36^length |
| Hashing.FullLengthInjective | src/xpk/utils/objects.py:79-80 | with the default length, two 256-bit hashes get the same text if and only if they are equal |
| Reservations.ParseOfPath | src/xpk/core/reservation.py:374-422 | at all three levels, parsing the printed path gives the link back if and only if its printed parts are non-empty and free of slashes and it is not a reservation called projects in the cluster's project |
| Reservations.ParsedIsWellFormed | src/xpk/core/reservation.py:374-406 | every parsed link has non-empty parts without slashes and the zone of the call |
| Reservations.ParseThenPrint | src/xpk/core/reservation.py:374-422 | printing a parsed path normalises it to a path of the same link, if and only if the link is not the ambiguous one |
| Reservations.ParsesExactly | src/xpk/core/reservation.py:374-406 | a path is read as a link if and only if it is one of the two spellings of the link; every other path is rejected |
| Reservations.AmbiguousLink | src/xpk/core/reservation.py:382-387 | the ambiguous link can be written in full, but its own short form is rejected |
| Capacity.AssessAvailableSlices | src/xpk/core/capacity.py:198-246 | the loop with its early returns yields the first failing code with no capacities, or the concatenated capacities without repeats |
| Capacity.DedupKeeps | src/xpk/core/capacity.py:243-244 | deduplication keeps exactly the entries, each once |
| Capacity.DedupInOrder | src/xpk/core/capacity.py:243-244 | the entries stay in the order of their first occurrence |
| Capacity.AssessPositive | src/xpk/core/capacity.py:249-327 | every entry of an assessment offers at least one slice |
| Capacity.SlotIterator.constructor | src/xpk/core/nodepool.py:802-805 | a new iterator has each target, in order, as often as it has slices still to yield |
| Capacity.SlotIterator.Next | src/xpk/core/nodepool.py:802-805 | next() yields the first remaining slot and removes it; it stops exactly when none remains |
| Capacity.PrepareReservationIterator | src/xpk/core/nodepool.py:774-807 | the iterator is refused, with the code of the assessment or 1, exactly if the assessment fails or offers fewer slices than new pools; otherwise it holds exactly the slots of the assessment |
| Capacity.SlotsMatchTotal | src/xpk/core/nodepool.py:791-805 | the iterator yields as many slots as the sum that is compared with the number of pools, so it never runs dry |
| Capacity.OffersExactly | src/xpk/core/capacity.py:264-327 | for any mix of links, with or without forced targeting, a successful assessment offers exactly the listed sub-blocks that hold a slice, each with the slices it holds, and the reservations and blocks that count as a whole; a sub-block link always counts by its own listing |
| Capacity.WholeEntries | src/xpk/core/capacity.py:294-301 | without forced targeting a successful assessment has exactly one entry for each listed reservation or block, with the slices that fit into its whole reservation |
| Capacity.AssessFailsExactly | src/xpk/core/capacity.py:222-241 | an assessment fails if and only if some link has an unknown or differently configured reservation, a failing query, or no room for a slice; the code is that of the first such link |
| Capacity.TargetsDistinct | src/xpk/core/capacity.py:243-244 | any mix of links, with or without forced targeting, leaves one entry for each reservation or block, and in a consistent snapshot for each sub-block |
| Capacity.NoOversubscription | src/xpk/core/capacity.py:198-327 | in a consistent snapshot, for any mix of links and repeats, with or without forced targeting, the pools assigned to a sub-block, times the machines of a pool, never exceed the free machines of the sub-block |
| Capacity.NoPlainOversubscription | src/xpk/core/capacity.py:432-475 | without forced targeting, whatever else is listed, the same for a reservation itself: machines of a specific one, chips of an aggregate one less the first resource in use of its kind |
| Capacity.UnforcedOversubscription | src/xpk/core/capacity.py:294-301 | for any list of links without forced targeting whose assessment succeeds: the entries for a reservation and its blocks as a whole offer more than it holds if and only if two different listed links share it |
| Commands.ChunksPartition | src/xpk/utils/objects.py:31 | the chunks joined are the list; all have between one and n elements, and all but the last exactly n |
| Commands.ChunksAligned | src/xpk/core/commands.py:55-57 | lists of equal length are cut at the same places |
| Commands.ProcessTable.RunCommandBatch | src/xpk/core/commands.py:80-152 | starts all children, polls until none runs, and returns the failures of the sequential reading; nothing is left running |
| Commands.ProcessTable.RunCommands | src/xpk/core/commands.py:37-77 | batched execution returns the failures of the sequential reading for any batch size; a batch starts only when nothing runs, and never more than `batch` children are alive |
| Commands.FailuresInOrder | src/xpk/core/commands.py:131-147 | the failures are exactly the commands with a positive return code, in input order, each with its own code, name, command and log file |
| NodePools.GetDesiredNodePoolNames | src/xpk/core/nodepool.py:673-688 | the names are the first managed pools, as many as wanted, and the lowest-numbered names until there are enough; sorted and exactly that many; the loop tries no more numbers than wanted |
| NodePools.DesiredNames | src/xpk/core/nodepool.py:673-688 | for distinct present pools: exactly the wanted number of distinct prefixed names, which are the first managed pools, or all managed pools and otherwise new names |
| NodePools.NamesOfNewCluster | src/xpk/core/nodepool.py:684-688 | for a cluster without managed pools the names are the prefix with the numbers from zero up to the count |
| NodePools.DesiredUnique | src/xpk/core/nodepool.py:673-688 | that description leaves no choice |
| NodePools.MinimalChurn | src/xpk/core/nodepool.py:673-688 | the managed pools to give up and to add are exactly as many as the counts differ, never both |
| NodePools.GetNodePoolsToDelete | src/xpk/core/nodepool.py:474-519 | the loop lists the pools that must go, in order, each once |
| NodePools.ToDeleteMembers | src/xpk/core/nodepool.py:495-519 | these are the legacy pools, and the managed pools that are not desired or belong to another device type |
| NodePools.PathwaysNotManaged | src/xpk/core/nodepool.py:497-513 | no prefix of any cluster makes a Pathways pool a managed one |
| Reconciler.Cluster.PlanDeletions | src/xpk/core/nodepool.py:111-180 | the run stops exactly if pools are present and a query fails or the zone differs; otherwise the deletions are those of the plan and the updates the kept pools that need one |
| Reconciler.Cluster.PoolsToUpdate | src/xpk/core/nodepool.py:160-189 | fails exactly if the query about a kept pool fails; otherwise names exactly the kept pools without Workload Identity, when that is asked for |
| Reconciler.Cluster.DeletePools | src/xpk/core/nodepool.py:200-215 | exactly the pools whose command took effect disappear; failure means a positive code |
| Reconciler.Cluster.CreatePools | src/xpk/core/nodepool.py:422-440 | exactly the pools whose command took effect appear |
| Reconciler.Cluster.UpdateAndCreate | src/xpk/core/nodepool.py:187-443 | after the deletions: the agreed updates are issued; exactly when they, the placement policy and the reservations succeed, all missing desired pools and the CPU pool for Pathways are created, each with its reservation, otherwise nothing; the code is 0 exactly if no creation failed or failures are to be ignored |
| Reconciler.Cluster.Reconcile | src/xpk/core/nodepool.py:54-443 | the cluster changes only by the issued commands; stage by stage, a failing listing or capacity request, another zone, a failing zone or metadata query, and a refused deletion end the run with nothing issued; a failing deletion ends it before updates and creations; a failing update before creations; with consent the updates are exactly the kept pools that need one; otherwise all missing pools are created with their reservations; a run without faults returns 0, and against truthful answers success means convergence |
| Reconciler.PickReservations | src/xpk/core/nodepool.py:283-325 | succeeds exactly if there are enough reservations; then each new pool gets one: the slots of the assessment in order, or the only given reservation, or the i-th given one for the i-th pool |
| Reconciler.PickSlots | src/xpk/core/nodepool.py:317-327 | one next() for each pool never meets an empty iterator and takes the slots greedily in order |
| Reconciler.RunNeverOversubscribes | src/xpk/core/nodepool.py:283-325 | the reservations a run hands to its new pools, with or without forced targeting, never ask more of a sub-block than is free in it |
| Reconciler.RunNeverOversubscribesPlain | src/xpk/core/nodepool.py:283-325 | without forced targeting, the plain reservations a run hands to its new pools are never asked for more machines, or chips, than are free in them |
| Reconciler.PlanMembers | src/xpk/core/nodepool.py:122-158 | which pools the plan deletes and creates, one by one |
| Reconciler.Convergence | src/xpk/core/nodepool.py:111-443 | if all commands took effect: the managed pools are exactly the desired ones, the legacy pools are gone, the CPU pool is there for Pathways, every other pool is as before, and no creation named a pool that was still present |
| Reconciler.SuccessConverges | src/xpk/core/nodepool.py:111-443 | a run that issued its whole plan without a positive code, against answers that do not report success falsely, has converged |
| Reconciler.RunsTouchNothingElse | src/xpk/core/nodepool.py:54-443 | wherever a run stops and whatever fails: pools of others are untouched, and desired pools of the same device type survive |
| Reconciler.PlanChurn | src/xpk/core/nodepool.py:96-282 | for the same device type the issued deletions are exactly the managed pools that are not desired and the issued creations exactly the missing desired ones: as many as the counts differ, never both; for another device type all managed pools are deleted and all desired ones created |
| Reconciler.PlanNamesOnce | src/xpk/core/nodepool.py:122-282 | no pool is named twice among the deletions or the creations of a run |
| Reconciler.FullRunChurn | src/xpk/core/nodepool.py:96-113 | such a run, if all its commands take effect, ends with the wanted number of managed pools, having deleted or created exactly as many as the counts differ |
| Reconciler.SequenceChurn | src/xpk/core/nodepool.py:96-113 | over any sequence of runs with changing counts and any listing orders, the managed pools deleted and created by the issued commands are in total as many as successive counts differ |
| Reconciler.NoCheaperSequence | src/xpk/core/nodepool.py:96-113 | no other commands, however planned, reach the same numbers of managed pools with less churn |
| Reconciler.RetryAfterFailure | src/xpk/core/nodepool.py:280-282 | after a run some of whose creations failed, the next run for the same count issues no deletion of a managed pool and creates exactly the missing number |
| Reconciler.RepeatPlansNothing | src/xpk/core/nodepool.py:111-282 | after a converged run, the same request plans nothing, in whatever order the pools are listed |
| NodeVersion.ChooseVersion | src/xpk/core/nodepool.py:610-624 | the loop returns, on the side of the first eligible version visited, the greatest version below the master or the least one of the same minor version at or above it |
| NodeVersion.GetNodePoolVersion | src/xpk/core/nodepool.py:575-640 | a failing query is passed on; a requested version must be valid; otherwise the chosen version, or code 1 if none is eligible |
| NodeVersion.OrderMatters | src/xpk/core/nodepool.py:615-624 | two visiting orders of the same versions agree if and only if both first meet an eligible version on the same side |
| NodeVersion.LoopMeetsComment | src/xpk/core/nodepool.py:613-624 | where texts compare as releases, the result is the documented one, in the order of release numbers, if and only if there is no release on the upper side or the first eligible one is there |
| NodeVersion.MeetsCommentExactly | src/xpk/core/nodepool.py:613-624 | for every master and every list drawn from a pool of releases the loop meets its comment exactly when the upper side comes first, if and only if the texts of any two releases of the pool compare as the releases do |
| NodeVersion.PrintedOrder | src/xpk/core/nodepool.py:617-621 | two version texts compare as their first differing numbers do as strings of digits |
| NodeVersion.SameWidthsAgree | src/xpk/core/nodepool.py:615-624 | in particular they do if corresponding numbers have equally many digits |
| NodeVersion.TenthPatchIsMissed | src/xpk/core/nodepool.py:613-624 | for master 1.30.9 and valid versions 1.30.10 and 1.30.11, in either order, the loop takes 1.30.11 where 1.30.10 is documented |
| Topology.ParseOfPrint | src/xpk/utils/topology.py:33-37 | parsing the printed form of three sides gives the sides back |
| Topology.PrintInjective | src/xpk/core/system_characteristics.py:230 | different triples are printed differently |
| Topology.GenerateTpuTopologies | src/xpk/core/system_characteristics.py:207-231 | for every bound and both modes: the four fixed topologies, then exactly the documented triples, each once, in lexicographic order |
| Topology.FixedTexts | src/xpk/core/system_characteristics.py:224 | the fixed topologies are printed as 2x2x1, 2x2x2, 2x2x4 and 2x4x4 |
| Topology.ListUnique | src/xpk/core/system_characteristics.py:207-231 | only one list meets that description |
| Topology.Representatives | src/xpk/core/system_characteristics.py:214-217 | the non-decreasing mode lists exactly the sorted representatives of the unrestricted mode |
| Topology.AcceptsTriple | src/xpk/core/scheduling.py:232-251 | what the super-slicing check accepts, on printed triples |
| Topology.CheckAgreesWithGenerator | src/xpk/core/scheduling.py:232-251 | the check accepts a printed topology exactly if the generator lists it beyond the fixed ones, unless its sides are sorted multiples of four within 144 cubes and one is beyond 256 |
| Topology.LongTopologyIsMissed | src/xpk/core/system_characteristics.py:225-228 | 4x4x260 is accepted but never generated |
| Catalogue.ChipsTimesVms | src/xpk/core/system_characteristics.py:285-295 | chips per VM times VMs per slice is the product of the topology if and only if the product is 1 or a multiple of 4 |
| Catalogue.SearchesByPosition | src/xpk/core/system_characteristics.py:276-280 | the winner of a core count, by position: the last default topology with it, or else the first topology with it |
| Catalogue.BuildMap | src/xpk/core/system_characteristics.py:234-282 | the loop builds the map one topology at a time, fails on an unreadable topology, and resolves ambiguity as intended if and only if there is no collision |
| Catalogue.CataloguedExactly | src/xpk/core/system_characteristics.py:253-282 | each topology key holds its topology, each core-count key the winner, and there is no other key, if and only if each topology written like a core count wins that count |
| Catalogue.CollisionExample | src/xpk/core/system_characteristics.py:275-280 | a default topology 1x1x2 takes the key of a topology 2 |
| Catalogue.CrossesDoNotCollide | src/xpk/core/system_characteristics.py:253-282 | topologies that contain an x never collide |
| Catalogue.SameDeviceTypeSameSize | src/xpk/core/system_characteristics.py:253-262 | two topologies of a family that share a device type have the same VMs per slice and chips per VM |
| Catalogue.SystemFields | src/xpk/core/system_characteristics.py:253-275 | field by field: the number in the device type is the product of the sides times the cores of a chip, the VMs and chips follow from the product, and each kind of slicing follows its own set |
| Admission.ParseConfigMap | src/xpk/core/resources.py:88-104 | the loop over the text of the ConfigMap builds the map of its cells; a text without a map is an error |
| Admission.ParseOfRender | src/xpk/core/resources.py:91-104 | what kubectl prints of entries without white space and colons is read back exactly |
| Admission.RecordedMap | src/xpk/core/resources.py:130-160 | after creation, admission reads back under the device type the slices times their VMs, or for a GPU system the nodes |
| Admission.AdmissionMatchesCreation | src/xpk/core/scheduling.py:70-184 | a cluster created with n slices of a system without super-slicing accepts m slices of it if and only if m <= n; for a GPU system the same for nodes |
| Admission.CubeSizes | src/xpk/core/system_characteristics.py:285-295 | a topology 4i x 4j x 4k has i*j*k cubes of 16 VMs |
| Admission.SuperSlicingMatchesCreation | src/xpk/core/scheduling.py:111-251 | a super-slicing cluster of n cubes accepts m slices of 4i x 4j x 4k if and only if i <= j <= k, i*j*k <= 144 and m*i*j*k <= n |
| Admission.SubSlicingMatchesCreation | src/xpk/core/scheduling.py:136-208 | a cluster without super-slicing accepts a workload of another device type, as sub-slicing, if and only if flag, features, accelerator and topology allow it and its machines fit into the recorded ones |
| Admission.AutoprovisioningMatchesCreation | src/xpk/core/scheduling.py:93-109 | with autoprovisioning a workload is accepted if and only if the VMs of a slice, times the chips of a VM, times its slices or GPU nodes, fit into the recorded maximum |
| Admission.AutoprovisioningCountsChips | src/xpk/core/scheduling.py:93-109 | for a TPU topology whose product is 1 or a multiple of 4: accepted if and only if the slices times the product fit into the recorded maximum of chips |
| Admission.VerdictsNeed | src/xpk/core/scheduling.py:70-153 | for any recorded resources: what each favourable verdict needs of accelerator, cluster features, topology and recorded numbers |
| WorkloadTable.FilterInOrder | src/xpk/core/workload.py:274-336 | the filter keeps exactly the rows that pass, in their order |
| WorkloadTable.FiltersRelate | src/xpk/core/workload.py:274-323 | what each filter keeps, relative to the others: running and queued share no row and split the admitted and evicted ones by their VMs, finished rows are in neither, failed and successful ones are finished with the word in their message |
| WorkloadTable.ColumnWidths | src/xpk/core/workload.py:358-361 | every cell fits its column and some cell of the column fills it |
| WorkloadTable.RenderWorkloads | src/xpk/core/workload.py:339-367 | the header and the rows, padded to such widths, one line each |
| WorkloadTable.TableIsAligned | src/xpk/core/workload.py:363-365 | all lines of such a table have the same length |
| WorkloadTable.LineHoldsCells | src/xpk/core/workload.py:363-365 | each line holds each cell at the start of its column, filled up with spaces |
| WorkloadTable.TableParsesBack | src/xpk/commands/workload.py:965 | for rows without line breaks: reading the table back gives exactly their names in order, if and only if no name contains a space |
| WorkloadTable.DeletionTargetsFiltered | src/xpk/commands/workload.py:957-981 | a deletion without a named workload targets exactly the names of the rows that pass the filter, in order, if and only if none of these names contains a space |
| WorkloadTable.DeleteWorkloads | src/xpk/commands/workload.py:899-936 | one deletion and one task name for each workload, in order, or none if a PathwaysJob was deleted instead; a single command reports its own code, a batch the first positive one |
| Kueue.KueueCluster.InstallOrUpgrade | src/xpk/core/kueue_manager.py:104-155 | the method with its early returns leaves the cluster, the issued commands and the code of the run function, whatever is answered |
| Kueue.KueueCluster.PrepareForUpgrade | src/xpk/core/kueue_manager.py:178-197 | the same for the breaking version and the consent |
| Kueue.KueueCluster.DeleteAllKueueResources | src/xpk/core/kueue_manager.py:199-230 | the two loops and the last command issue the deletion plan up to the first failure |
| Kueue.KueueCluster.Retry | src/xpk/core/commands.py:155-183 | the loop with its counter is one command tried up to five times |
| Kueue.KueueCluster.Install | src/xpk/core/kueue_manager.py:157-176 | the manifest, the tolerations and the wait, each only after the success of the one before |
| Kueue.RetriesEnd | src/xpk/core/commands.py:155-183 | one to five tries, fewer than five only after a success, no try after a success; the command took effect or the cluster is as before |
| Kueue.InstallEnds | src/xpk/core/kueue_manager.py:157-176 | installing deletes nothing, leaves the old state or the target version, and succeeds only after manifest, tolerations and wait |
| Kueue.PlanShape | src/xpk/core/kueue_manager.py:213-230 | the deletion plan by position: the instances of every definition, every definition, the deployment |
| Kueue.RunDeletesInOrder | src/xpk/core/kueue_manager.py:178-230 | the deletions a run issues, whatever fails, are a prefix of all instances, then all definitions, then the deployment, each after the success of the one before and all before the installation; they need an outdated deployment and consent; the deployment is gone only after all of them |
| Kueue.SuccessIsComplete | src/xpk/core/kueue_manager.py:104-155 | a run that succeeds issued nothing or a complete installation, after no deletion or all of them, and configured Kueue |
| Kueue.RunIsStep | src/xpk/core/kueue_manager.py:116-155 | with truthful queries, whatever else fails: protected, current and wedged clusters are left alone, and any other deployment stays, goes, or becomes the target version, from below it only |
| Kueue.OnlyConfigured | src/xpk/core/kueue_manager.py:118-141 | protected deployments and current ones are only configured |
| Kueue.RefusedConsentStops | src/xpk/core/kueue_manager.py:192-204 | an outdated deployment stays as it is, with no command issued and a failing code, if consent is refused or no definitions are listed |
| Kueue.ManifestNeedsDeletions | src/xpk/core/kueue_manager.py:178-230 | over a breaking version the manifest is applied only with consent and after the whole deletion plan, each command of which succeeded |
| Kueue.InstallsWithoutDeletions | src/xpk/core/kueue_manager.py:178-180 | from the breaking version on, and where nothing is deployed, a run begins with the manifest and deletes nothing, whatever the user answers |
| Kueue.ProtectedUnlessQueryFails | src/xpk/core/kueue_manager.py:116-141 | a protected deployment meets anything but configuration only if the query that protects it failed |
| Kueue.SuccessIsCurrent | src/xpk/core/kueue_manager.py:104-155 | success means that an unprotected deployment is at the target version or above |
| Kueue.FaultFreeRun | src/xpk/core/kueue_manager.py:104-230 | without faults a run succeeds if and only if the cluster is not wedged |
| Kueue.VersionNeverDecreases | src/xpk/core/kueue_manager.py:116-155 | over any sequence of runs, whatever fails or is refused, the deployed version never goes down, unless a target is followed by a lower one with a version between them below the breaking version |
| Kueue.DowngradeThroughDeletion | src/xpk/core/kueue_manager.py:116-230 | for such targets there are runs, with answers that do not lie, in which an upgrade deletes everything and cannot install, and a later run installs the lower version |
| Kueue.LoweredExactly | src/xpk/core/kueue_manager.py:116-230 | some sequence of runs for given targets lowers the version if and only if the targets are such |
| Kueue.ProtectedForever | src/xpk/core/kueue_manager.py:118-141 | custom-tagged and externally managed deployments survive every sequence of runs unchanged |
| Kueue.WedgeIsReached | src/xpk/core/kueue_manager.py:199-230 | the run in which all deletions succeed but the last, which fails without effect, ends with all definitions gone and the outdated deployment in place |
| Kueue.WedgedForever | src/xpk/core/kueue_manager.py:199-204 | from there no run for a newer version changes anything |

## Left out

- Subprocesses, gcloud, kubectl, temporary files, sleeps, prompts and printing are not modelled; their return codes and answers are parameters. Command strings and YAML are not modelled, except the printed paths, tables, ConfigMap texts and recipe blocks.
- Branches for a dry run are left out throughout.
- Reading a file with universal newlines, digits of int() other than ASCII, and the lower-casing of characters other than ASCII letters are not modelled.
- RecipesFixpoint.UpdateFixpoint: shows that a safe update is a fixpoint; that an unsafe one is not is stated for the scanned blocks (RecipesFixpoint.UpdateStable) and for a first block (RecipesFixpoint.UpdateTwiceFirstBlock). A comment left open can swallow the replaced block, and then the second update has nothing left to replace.
- RecipeRuns.UpdateThenVerify: takes the shell as a function from script to log, so commands with changing output are outside it.
- RecipeRuns.OutputsOfRun: models of the shell only the order of the parts, echo of a quoted word and the end at the first failing part; the error mode and the wrapper print nothing, and neither a command nor its output contains the end marker.
- Hashing.HashString: takes the SHA-256 value as a parameter.
- Capacity.NoOversubscription: takes every query as having one fixed answer; the lookup of a project number and of the matching reserved resource is a field of the snapshot.
- Reconciler.Convergence: assumes that the commands took effect. Only positive return codes count as failures in the source, so a command killed by a signal is not noticed; Reconciler.Cluster.Reconcile keeps code and effect apart for that reason.
- Reconciler.Cluster.Reconcile: keeps pools as names; machine types, placement policies and network arguments of the commands are left out. The listing names each pool once.
- NodeVersion.ChooseVersion: follows the code in comparing versions as plain strings, not as version numbers.
- NodeVersion.LoopMeetsComment: reads releases of the form major.minor.patch, with or without a -gke build number; other texts have no order of releases.
- Kueue.KueueCluster.InstallOrUpgrade: represents a version by its rank in the order of packaging.Version; configuring Kueue is a return code and changes neither version nor definitions.
- Kueue.VersionNeverDecreases: needs truthful version and ownership queries.
- Admission.ParseOfRender: the order in which kubectl prints entries is the given one; maps read back from distinct keys do not depend on it. The dictionary of the YAML that creation applies is not modelled.
- WorkloadTable.DeleteWorkloads: takes the deletion of a PathwaysJob as one answer, and the return codes as given.
- The literal catalogue of systems, sub-slicing annotations, GPU decorators, storage manifests, CIDR checks, telemetry, configuration files, argument parsers and the limit autocorrection of Kueue are left out: finite tables, single branches or unconditional appends.
