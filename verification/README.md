# Verified model of the Insights Operator's stateful cores

The Insights Operator gathers data from an OpenShift cluster, anonymizes it, keeps it in memory until it is
archived, and reports its own state in a cluster operator object.  This project models in Dafny the parts of it
that keep state, do arithmetic or run concurrently, and proves what they are relied on for:

- the IPv4 obfuscator: the arithmetic of `getNextIP` (`Bits`, `NextIp`), the network list made by an in-place sort
  and deduplication whose leftovers stay visible to the caller (`Orders`, `Slices`, `Networks`), and the obfuscator
  over any run of calls and table resets (`Anonymizer`, `AnonymizerOrbits`, `AnonymizerEpochs`, `AnonymizerLimits`,
  `AnonymizerCollisions`), with the list of a cluster (`AnonymizerOfCluster`);
- the pool of gathering tasks and the two-level fan-in of container logs, as transition systems over the steps of
  their goroutines (`TaskPool`, `TaskResults`, `LogFanIn`), and the grouping of log requests (`LogRequests`);
- the streaming line filters, against any way a reader cuts its stream (`Lines`, `PrefixLines`, `LineLimit`);
- the status of the cluster operator: the run-length counter of a source (`ControllerStatuses`), the fold over the
  sources (`StatusSources`, `StatusOrder`), the conditions (`StatusConditions`), one table that says what a merge
  makes of every condition type (`StatusTargets`), the merge proved against it (`StatusUpdates`, `StatusMerge`),
  merges one after another (`StatusFixpoint`), and the merged conditions in terms of the sources (`StatusOutcome`);
- the aggregations: overlapping UID ranges (`UidRanges`), pod shapes and the paged count of workloads (`PodShapes`,
  `Workloads`, `WorkloadCounts`), the recorder and its archive budget (`Recording`, `RecordingRuns`), and install
  plans (`InstallPlans`, `InstallPlanReport`, `InstallPlanTop`).

Objects whose methods update fields are classes; each method is tied to a function or relation on their abstract
value, and the lemmas about whole runs are about that.  Go maps are visited in any order: either the method picks
keys arbitrarily, or the order is a parameter and the lemmas hold for every order.  `Orders.Sort` stands for the
sort package; callers use only that its result is sorted and has the same elements.  Regular expressions, hashes,
version parsing, marshalling, the anonymizing of data and the clock are parameters.
`Sums` adds up the values of a map; `Bytes` and `Options` have bytes and missing values.

`dafny verify dfyconfig.toml` checks everything.

## Where a promise holds only under a condition

- A network's replacements leave it once its cursor has wrapped, if its first byte is zero and it is neither /0 nor
  /32: the big integer drops leading zero bytes (`AnonymizerLimits.InsideExactly`).  They stay distinct even then
  (`AnonymizerEpochs.ReplacementsAreDistinct`).
- In the first epoch no replacement is its network's base, but a cursor that keeps its width comes back to it, and the
  base is also its own reply (`AnonymizerLimits.BaseIsAvoidedExactly`, `AnonymizerCollisions.RepliesAreOneToOneExactly`).
- Addresses of overlapping networks can get the same replacement, and so can those of two networks that have lost
  their cursors (`AnonymizerCollisions.TableIsOneToOneExactly`).
- Prefix lengths are compared as text, so "8" sorts before "16": the first match is not always the longest
  (`Networks.FirstMatchIsLongestExactly`), and a network base inside a shorter prefix that sorts first is not fixed
  (`AnonymizerLimits.FixedExactlyAtBases`).
- A merge that announces an upgrade is followed by one that takes it back, so the status is stable only from the
  second merge on (`StatusFixpoint.MergingAgainChangesNothingExactly`).
- The status depends on the iteration order of the sources when two failing sources of one operation disagree
  (`StatusOrder.OrderIndependentExactly`).
- The summary of a source keeps a stale HTTP status code while its words stay the same
  (`ControllerStatuses.OperationIsLastStored`), and UpdateStatus drops the time it has just read whenever something
  changes (`ControllerStatuses.ClockIsLostOnChange`).
- UID ranges of length zero or below can count as overlapping, and ranges whose end leaves int64 do not
  (`UidRanges.OverlapExactly`, `UidRanges.OverlapOfUidsExactly`).
- The pod count is not the sum of the namespace counts when hashes collide or a namespace comes back
  (`WorkloadCounts.CountIsSumExactly`).
- The recorder's budget counts data before anonymizing and gives back lengths after it
  (`RecordingRuns.SizeIsStoredLessDrift`), so what is stored can exceed the limit by what anonymizing adds
  (`RecordingRuns.BudgetHolds`, `RecordingRuns.BudgetExactly`).
- Install plans tied at the limit are reported by iteration order (`InstallPlanTop.MostFrequentExactly`), and plan
  keys joined with dots can merge two plans (`InstallPlans.CountedApartExactly`).

## Model

| member | source | states |
|---|---|---|
| NextIp.GetNextIP | pkg/anonymization/network_anonymizer.go:484-535 | The shift-and-or loop, the padding, the masks and the overflow branch compute the address function that the next rows are about. |
| NextIp.IntValue | pkg/anonymization/network_anonymizer.go:497-503 | The loop that shifts each byte to its place and ors it in yields the big-endian value of the address. |
| NextIp.TakeLastNItemsFromByteArray | pkg/utils/slices.go:32-42 | The last n bytes, with zeros in front when there are fewer. |
| NextIp.MaskValue | pkg/anonymization/network_anonymizer.go:514-525 | Masking with a CIDR mask of h host bits keeps the value with its low h bits cleared; masking with the inverted mask keeps exactly those bits. |
| NextIp.NextAddressIsCyclicSuccessor | pkg/anonymization/network_anonymizer.go:484-535 | getNextIP is base + ((v - base + 1) mod 2^h); the overflow flag holds exactly when all host bits are ones and the mask is not /0; the result keeps its width exactly when there is no overflow or the first byte of the base is not zero. |
| NextIp.NextOfIsCyclicSuccessor | pkg/anonymization/network_anonymizer.go:484-535 | The same for slices of any length, IPv4 or IPv6. |
| NextIp.ZeroNetworkLosesItsWidth | pkg/anonymization/network_anonymizer.go:527-531 | Past the last address of a network based at zero comes the empty slice, because Bytes() drops leading zeros. |
| Slices.SortAndRemoveDuplicates | pkg/utils/slices.go:11-28 | In place: the array becomes the compaction of its sorted contents, followed by the leftovers of the sorted list; the result is the new length of the header that the callee sees. |
| Slices.CompactKeepsEveryClass | pkg/utils/slices.go:17-27 | Compaction of a sorted list is strictly sorted and keeps one element of every equivalence class. |
| Slices.StaleTailIsHarmless | pkg/utils/slices.go:11-28 | The caller, whose header keeps its length, sees a strictly sorted prefix with exactly the original elements and a tail whose elements all occur in the prefix. |
| Networks.SortNetworks | pkg/anonymization/network_anonymizer.go:464-481 | sortNetworks orders by the text of the length, then by the text of the address, both descending, and removes duplicates in place. |
| Networks.GetNetworksForAnonymizer | pkg/anonymization/network_anonymizer.go:408-443 | The list is ordered with a stale tail; its prefix holds exactly the loopback network, the cluster's networks, those of the install-config, the egress networks, and the OVN default when there are no host subnets, in descending order of length texts and then of address texts. |
| Networks.ContainsIsSamePrefix | pkg/anonymization/network_anonymizer.go:219-226 | For an IPv4 network in CIDR form, containment is equality of the network parts. |
| Networks.V6MatchesNoV4 | pkg/anonymization/network_anonymizer.go:219-227 | A parsed IPv6 network that is not IPv4-mapped matches no IPv4 address, so the lists below may be dual-stack. |
| Networks.TextOrderMisordersLengths | pkg/anonymization/network_anonymizer.go:473-478 | The text order puts a shorter prefix first exactly when its length is one digit above the first digit of a two-digit length. |
| Networks.FirstMatchIsLongestExactly | pkg/anonymization/network_anonymizer.go:219-240 | For every list and address, given any longest match: the first match is a longest match exactly when the longest length is written in one digit, or no one-digit length of a containing network exceeds its first digit. |
| Networks.TwoDigitLengthsGiveLongestMatch | pkg/anonymization/network_anonymizer.go:464-481 | When the networks that hold an address all have two-digit lengths, its first match is a longest match. |
| Networks.TextContains | pkg/anonymization/network_anonymizer.go:346-348 | A parsed network contains the addresses that share its prefix with the address in its text. |
| Networks.SlashEightShadowsSlashSixteen | pkg/anonymization/network_anonymizer.go:464-481 | The restriction is needed: in a list of 10.0.0.0/8 and 10.1.0.0/16 every address of the second is served by the first, which is not a longest match. |
| Anonymizer.NetworkAnonymizer.constructor | pkg/anonymization/network_builder.go:79-100 | Build: every cursor at its network's base, the table empty. |
| Anonymizer.NetworkAnonymizer.ReadNetworkConfigs | pkg/anonymization/network_anonymizer.go:349-355 | The cluster's networks are appended, each with its cursor at its base. |
| Anonymizer.NetworkAnonymizer.ObfuscateIP | pkg/anonymization/network_anonymizer.go:194-248 | The new state and the reply are those of the step function that all runs are made of. |
| Anonymizer.NetworkAnonymizer.ResetTranslationTable | pkg/anonymization/network_anonymizer.go:290-292 | The table is emptied, the cursors stay. |
| Anonymizer.NetworksAreFixed | pkg/anonymization/network_anonymizer.go:194-248 | No run changes the networks or their order. |
| Anonymizer.EntriesNeverChange | pkg/anonymization/network_anonymizer.go:200-202 | Within an epoch, table entries never change or disappear. |
| Anonymizer.SameReplyAllEpoch | pkg/anonymization/network_anonymizer.go:194-248 | Within an epoch the mapping is a function: the reply to a text is the same whenever it is asked for again. |
| Anonymizer.FixedReplies | pkg/anonymization/network_anonymizer.go:194-248 | In every state of every run: text that is no IPv4 address is returned as it is, an address outside every network becomes 0.0.0.0, and the base of the first matching network is its own reply. |
| AnonymizerOrbits.CursorStep | pkg/anonymization/network_anonymizer.go:227-236 | One move of a cursor is the cyclic successor in its network; it keeps four bytes exactly when it does not overflow or the network's first byte is not zero. |
| AnonymizerOrbits.OrbitDoesNotRepeat | pkg/anonymization/network_anonymizer.go:484-535 | Fewer than 2^h moves of a cursor never print the same text twice, whether it stays in its network or has left it. |
| AnonymizerOrbits.OutsideStep | pkg/anonymization/network_anonymizer.go:484-535 | A cursor that has lost its width counts up as an IPv6 address, and starts again from nothing where it would become IPv4-mapped. |
| AnonymizerOrbits.OutsideOrbit | pkg/anonymization/network_anonymizer.go:527-531 | After 2^h moves such a cursor is outside its network and counts up from the base again. |
| AnonymizerEpochs.ReplacementsAreDistinct | pkg/anonymization/network_anonymizer.go:219-240 | For every IPv4 network, over any number of epochs and wraps of the cursor: two addresses replaced by the same network in the current epoch have different replacements. |
| AnonymizerCollisions.CollisionsExactly | pkg/anonymization/network_anonymizer.go:219-240 | Two networks that serve addresses can give two of them the same replacement exactly when one contains the other's base, or when both lose their cursors' width. |
| AnonymizerCollisions.CollisionNeedsOverlap | pkg/anonymization/network_anonymizer.go:219-240 | Equal replacements of different networks need that overlap or that loss. |
| AnonymizerCollisions.OverlapCollides | pkg/anonymization/network_anonymizer.go:219-240 | Whenever two networks overlap, some run brings both cursors to a common address in one epoch. |
| AnonymizerCollisions.NarrowNetworksCollide | pkg/anonymization/network_anonymizer.go:484-535 | So it does for two networks that lose their cursors' width, overlapping or not. |
| AnonymizerCollisions.TableIsOneToOneExactly | pkg/anonymization/network_anonymizer.go:194-248 | The translation table is one-to-one in every state of every run exactly when no two serving networks overlap and at most one of them loses its cursor's width. |
| AnonymizerCollisions.RepliesAreOneToOneExactly | pkg/anonymization/network_anonymizer.go:194-248 | The replies of an epoch, those at bases included, are one-to-one in every run exactly when the serving networks are separate and none of them can hand out a fixed base. |
| AnonymizerCollisions.WideNetworkRepeatsItsBase | pkg/anonymization/network_anonymizer.go:219-240 | So they are not when any serving network keeps its cursor's width. |
| AnonymizerEpochs.ReplacementIsInside | pkg/anonymization/network_anonymizer.go:219-240 | A replacement stays inside the first network that matches the address, if that network's cursor keeps its width. |
| AnonymizerLimits.HandedOutExactly | pkg/anonymization/network_anonymizer.go:219-240 | In every list, the IPv4 addresses that a serving network hands out over all runs are exactly its own, its base only if its cursor keeps its width. |
| AnonymizerLimits.InsideExactly | pkg/anonymization/network_anonymizer.go:219-240 | In every list, the replacements of a serving network stay inside it in all runs exactly when its first byte is not zero or its length is /0 or /32. |
| AnonymizerLimits.NarrowNetworkEscapes | pkg/anonymization/network_anonymizer.go:527-531 | Otherwise every text that it serves gets, in some run, a reply that is no IPv4 address. |
| AnonymizerLimits.BaseIsAvoidedExactly | pkg/anonymization/network_anonymizer.go:219-240 | No reply is ever the base of the serving network exactly when its cursor loses its width. |
| AnonymizerLimits.FixedExactlyAtBases | pkg/anonymization/network_anonymizer.go:219-240 | Among the matched addresses, those that every run maps to themselves are exactly the ones at which the first matching network is based. |
| AnonymizerLimits.BasesAreFixedWhenLongestFirst | pkg/anonymization/network_anonymizer.go:219-240 | A network base is a fixed point when no earlier network that contains it is wider. |
| AnonymizerEpochs.FirstEpochAvoidsBase | pkg/anonymization/network_anonymizer.go:219-240 | In the first epoch every replacement of every IPv4 network is an address inside it other than its base. |
| AnonymizerLimits.ParsedListHasRepeatingTail | pkg/anonymization/network_anonymizer.go:408-443 | The list that getNetworksForAnonymizer returns, parsed, has a tail that repeats networks of its prefix. |
| AnonymizerLimits.StaleTailChangesNoReply | pkg/anonymization/network_anonymizer.go:219-240 | In every run the list with its stale tail gives the replies, the table and the cursors of the deduplicated list; the cursors of the tail never move. |
| AnonymizerOfCluster.ClusterReplacementsAreDistinct | pkg/anonymization/network_anonymizer.go:408-443 | For the list that getNetworksForAnonymizer returns, parsed and built: every replaced address is served by a network of the ordered part, and two that share it have different replacements. |
| AnonymizerOfCluster.ClusterTable | pkg/anonymization/network_anonymizer.go:346-355 | For that list, dual-stack or not: the leftovers serve nothing and change no reply, and the table is one-to-one exactly when the serving networks are separate. |
| TaskPool.PoolIsSafe | pkg/gather/tasks_processing.go:32-65 | In every reachable state of every interleaving: no send on a closed channel and no second close; unsent tasks, tasks held by workers, results on their way and delivered results are together the input; once the results channel is closed every result has left the workers. |
| TaskPool.StepInv | pkg/gather/tasks_processing.go:67-101 | Each step of the feeder, a worker, the closer or the consumer keeps the invariant. |
| TaskPool.StepKeepsPlaces | pkg/gather/tasks_processing.go:32-101 | Each step moves at most one task from one place to the next. |
| TaskPool.Progress | pkg/gather/tasks_processing.go:40-61 | No deadlock: some goroutine can move in every state that is not final. |
| TaskPool.PoolTerminates | pkg/gather/tasks_processing.go:32-65 | Every run can go on until it is final, is final exactly after 4 steps per task, 3 per worker and 5 more, and then there is one result for every task; also with no tasks. |
| TaskResults.StepKeepsResults | pkg/gather/tasks_processing.go:67-101 | No step changes, loses or duplicates a result; only the end of a task adds one. |
| TaskResults.DeliveredIsProduced | pkg/gather/tasks_processing.go:32-101 | In the end the consumer has exactly the multiset of results that the run produced: for each end of a task its name with the records and errors it returned and no panic, or with its panic alone. |
| TaskResults.PanicYieldsOneResult | pkg/gather/tasks_processing.go:77-101 | In the end a panic has been delivered as a result without records or errors, and a task given once has no other result. |
| TaskResults.ReturnYieldsItsResult | pkg/gather/tasks_processing.go:77-101 | In the end all records and errors that a task returned have been delivered together, without a panic, and a task given once has no other result. |
| LogFanIn.FanInIsExact | pkg/gatherers/conditional/filter_and_gather_container_logs.go:82-185 | In every interleaving no goroutine sends on the closed channel, and on return the collected records and errors are, as multisets, exactly those of the mappings: the errors of a namespace that could not be mapped, and for every pod of the others its regex error or the record and the error of each of its containers. |
| LogFanIn.StepKeepsEverything | pkg/gatherers/conditional/filter_and_gather_container_logs.go:129-185 | Each step keeps what is owed by all goroutines, held by the receiver and collected. |
| LogFanIn.StepInPhase | pkg/gatherers/conditional/filter_and_gather_container_logs.go:82-185 | Each step keeps the phases of both WaitGroups, the channel and the goroutines in agreement, without a panic. |
| LogFanIn.Progress | pkg/gatherers/conditional/filter_and_gather_container_logs.go:82-114 | No deadlock until gatherContainerLogs has returned. |
| LogFanIn.FanInTerminates | pkg/gatherers/conditional/filter_and_gather_container_logs.go:82-185 | Every run has at most a number of steps fixed by the mappings, and has returned exactly when it has that many. |
| LogRequests.GroupRawLogRequestsByNamespace | pkg/gatherers/conditional/filter_and_gather_container_logs.go:248-281 | The grouped requests ask for exactly the namespaces, pod patterns and messages of the raw requests, each once. |
| PrefixLines.ReadAllLinesWithPrefix | pkg/utils/read_lines_with_prefix.go:11-69 | For any reader: the result is the concatenation, in order, of the lines of the accepted stream that start with the prefix, an unterminated last line included; the error is that of the reader, so the "unexpected line" error is unreachable. |
| PrefixLines.ReadTwoCuts | pkg/utils/read_lines_with_prefix.go:11-61 | Readers that deliver the same bytes give the same result, whatever the cuts between their reads. |
| PrefixLines.AnyCutIsAccepted | pkg/utils/read_lines_with_prefix.go:15-22 | Any cut of a stream into non-empty reads delivers the whole stream, whether EOF comes with the last bytes or by itself; a read that fails otherwise loses its data, and an empty read ends the stream. |
| PrefixLines.KeptExactly | pkg/utils/read_lines_with_prefix.go:41-69 | What is kept of a stream is the concatenation of exactly its lines that begin with the prefix, byte by byte, each whole and in its place. |
| PrefixLines.MoreSeen | pkg/utils/read_lines_with_prefix.go:22-53 | What one read adds to the filtered lines and to the unfinished line. |
| Lines.SplitAfterShape | pkg/utils/read_lines_with_prefix.go:22 | Splitting loses nothing; every piece but the last ends in its only separator, and the last has none. |
| LineLimit.LineLimitedReader.Read | pkg/utils/line_limit_reader.go:22-43 | The loop over the separators of one chunk returns the whole chunk while it fits under the limit, and else exactly its first lines and EOF; the counters follow. |
| LineLimit.LimitIsExact | pkg/utils/line_limit_reader.go:22-46 | After any reads over any chunking: everything pulled is delivered while it has at most n separators, and else exactly its first n lines; GetTotalLinesRead is the number of separators pulled. |
| LineLimit.CounterCountsPulled | pkg/utils/line_limit_reader.go:44-46 | GetTotalLinesRead of a reader after any reads is the number of separators pulled, at least those handed on. |
| LineLimit.NeverTooManyLines | pkg/utils/line_limit_reader.go:22-43 | The delivered bytes are a prefix of the stream with at most n separators, exactly n once the limit is passed. |
| LineLimit.LimitAnswersEof | pkg/utils/line_limit_reader.go:22-43 | A read answers EOF because of the limit exactly when n separators were pulled before it or more than n after it, and the caller then has exactly n; every other read gives the whole chunk and the source's error. |
| LineLimit.OverrunIsOnePiece | pkg/utils/line_limit_reader.go:22-43 | At the limit the delivered bytes are the first n lines and at most a separator-free piece of the next line, no longer than the chunk of the read that pulled the n-th separator. |
| ControllerStatuses.Simple.UpdateStatus | pkg/controllerstatus/controllerstatus.go:64-95 | The stored summary after an update, branch by branch, as the step that all runs are made of. |
| ControllerStatuses.LatestWording | pkg/controllerstatus/controllerstatus.go:64-95 | Health, reason and message are always those of the last update. |
| ControllerStatuses.CountIsRunLength | pkg/controllerstatus/controllerstatus.go:74-87 | The counter is the count of the last update that carries one or changes health (one if it carries none) plus the updates since; with no such update it is their number. |
| ControllerStatuses.CountReaches | pkg/controllerstatus/controllerstatus.go:79-87 | Without carried counts, a source that now fails has reached n exactly when the last n updates were failures. |
| ControllerStatuses.ReadyOnceUpdated | pkg/controllerstatus/controllerstatus.go:98-105 | A source is ready exactly when it has been updated. |
| ControllerStatuses.AnswersAfterUpdates | pkg/controllerstatus/controllerstatus.go:98-105 | CurrentStatus answers nothing, and not ready, before the first update; after any others it is ready, with the health, reason and message of the last. |
| ControllerStatuses.OperationIsLastStored | pkg/controllerstatus/controllerstatus.go:74-94 | The operation and its HTTP status code are those of the last update that changed health, reason or message or carried a count. |
| ControllerStatuses.StaleStatusCode | pkg/controllerstatus/controllerstatus.go:86-94 | A 500 after a 404 in the same words keeps the 404. |
| ControllerStatuses.ClockIsLostOnChange | pkg/controllerstatus/controllerstatus.go:68-94 | For an update without a time, the clock's answer is kept exactly when nothing changes, and the zero time exactly when something does. |
| StatusSources.ControllerStatus.SetStatus | pkg/controller/status/status.go:29-44 | Copying the map and replacing the entry when it differs sets exactly that entry. |
| StatusSources.HandleControllerStatusError | pkg/controller/status/controller.go:599-612 | No error, the only one under its reason or "UnknownError", or all messages sorted and joined under "MultipleFailures". |
| StatusSources.MultipleListsAll | pkg/controller/status/controller.go:600-603 | The joined message is the heading and then every message, whole, in sorted order, with nothing but separators in between. |
| StatusSources.CurrentControllerStatus | pkg/controller/status/controller.go:283-353 | For sources in any order: each topic has the reason and message of its last failing source, the error is that of the degrading failures, and the disabled status that of the configuration; the result says whether all sources are ready. |
| StatusSources.CheckDisabledGathering | pkg/controller/status/controller.go:552-564 | A missing token disables, and disabling by configuration overrides it. |
| StatusSources.UploadsDegradeAfterFive | pkg/controller/status/controller.go:307-316 | An uploading source degrades the operator exactly when its last five uploads failed. |
| StatusOrder.OrderIndependentExactly | pkg/controller/status/controller.go:289-353 | Every order of visiting the sources gives the same status map exactly when failing sources of one topic agree on reason and message. |
| StatusOrder.OneFailureEach | pkg/controller/status/controller.go:289-353 | So it does with at most one failing source per topic. |
| StatusOrder.SameError | pkg/controller/status/controller.go:599-612 | The error depends on the degrading failures only as a multiset. |
| StatusConditions.Conditions.constructor | pkg/controller/status/conditions.go:36-95 | Each type starts with its last existing condition, or unknown at the given time for the eight default types. |
| StatusConditions.Conditions.SetCondition | pkg/controller/status/conditions.go:97-114 | The condition takes the new status, reason and message; its transition time is kept exactly when the status is the same and is else a reading of the clock; all others stay. |
| StatusConditions.Conditions.RemoveCondition | pkg/controller/status/conditions.go:116-118 | Only that type is removed. |
| StatusConditions.Conditions.Entries | pkg/controller/status/conditions.go:135-144 | For any order of visiting the map: each condition once, strictly ordered by type. |
| StatusConditions.ListIsUnique | pkg/controller/status/conditions.go:135-144 | The list of a map's conditions does not depend on the order of visiting it. |
| StatusConditions.ListReadsBack | pkg/controller/status/conditions.go:88-90 | Reading the list back gives the conditions it was made from. |
| StatusUpdates.HandleAPIDisabledConditions | pkg/controller/status/controller.go:487-497 | GatheringDisabled is as the table of targets says, by configuration first, then by token. |
| StatusUpdates.HandleRemoteConfigurationConditions | pkg/controller/status/controller.go:499-526 | Both remote configuration conditions are as the table says. |
| StatusUpdates.UpdateControllerConditionByReason | pkg/controller/status/controller.go:528-550 | The condition is kept while initializing, without a source, or while it is not ready; else it is true exactly for the available reason. |
| StatusUpdates.UpdateControllerConditions | pkg/controller/status/controller.go:428-484 | Nine condition types end as the table says, with the rule for transition times, whatever the initializing part did before; all others are untouched. What the table says is proved in terms of the sources in StatusOutcome. |
| StatusUpdates.UpdateControllerConditionsByStatus | pkg/controller/status/controller.go:567-596 | Progressing and Available end as the table says; all others are untouched. |
| StatusMerge.CheckVersionChanges | pkg/controller/status/controller.go:238-280 | Each flag holds exactly when all versions parse and some listed version differs (in major or minor version for the second). |
| StatusMerge.Controller.Merge | pkg/controller/status/controller.go:170-229 | Every condition type, the versions, the related objects and the report time of the new status, for any order of the sources and any clock; images are updated exactly on a change of version; the start time is set once, when a source is not ready. |
| StatusFixpoint.MergingAgainChangesNothingExactly | pkg/controller/status/controller.go:170-229 | Merging the result again with the same inputs gives the identical status, whatever the clock says, exactly when the first merge did not announce an upgrade. |
| StatusFixpoint.ThirdMergeIsTheSecond | pkg/controller/status/controller.go:195-217 | A third merge never changes anything. |
| StatusFixpoint.UnchangedSourcesSkipTheUpdate | pkg/controller/status/controller.go:411-421 | With agreeing sources read in any order and no upgrade, the new status equals the existing one and the write is skipped. |
| StatusFixpoint.EveryConditionIsTheTables | pkg/controller/status/controller.go:190-220 | The merged list is strictly ordered by type, has all default types, and each condition is the table's, which StatusOutcome spells out in terms of the sources. |
| StatusFixpoint.DegradedIsUnavailable | pkg/controller/status/controller.go:450-455 | Degraded is true exactly when Available is false, exactly when there is an error status and the operator is not disabled; both are always true or false. |
| StatusFixpoint.DegradedByASource | pkg/controller/status/controller.go:283-353 | Degraded is true exactly when reporting is enabled, gathering is not disabled, and some source has a degrading failure. |
| StatusFixpoint.DisabledIsGatheringDisabled | pkg/controller/status/controller.go:439-448 | Disabled and GatheringDisabled are true together, exactly when the token is missing or the API disables gathering. |
| StatusFixpoint.DisabledSilencesAlarms | pkg/controller/status/controller.go:450-469 | A disabled operator is not degraded and has no upload or download alarm; an alarm is absent or true. |
| StatusFixpoint.ValidityNeedsAvailability | pkg/controller/status/controller.go:499-526 | Outside tech preview the remote configuration is available exactly when its validity is known; it is unavailable while disabled. |
| StatusFixpoint.TimesMoveWithStatus | pkg/controller/status/conditions.go:97-114 | Without an announced upgrade, a merge that keeps a condition's status keeps its transition time, and one that changes the status sets a reading of the clock. |
| StatusOutcome.UploadAlarmExactly | pkg/controller/status/controller.go:457-462 | UploadDegraded is present, and true, exactly when reporting is enabled, gathering is not disabled and some ready "Uploading" source fails; it has the reason and message of the last such source. |
| StatusOutcome.DownloadAlarmExactly | pkg/controller/status/controller.go:464-469 | The same for "DownloadingReport" sources and InsightsDownloadDegraded. |
| StatusOutcome.RemoteConfigurationExactly | pkg/controller/status/controller.go:499-526 | Outside tech preview: unavailable and of unknown validity when disabled, or in the words of the last failing source unless its reason is "Invalid"; then available but not valid, in its words; available and valid when no such source fails. |
| StatusOutcome.TechPreviewKeepsRemote | pkg/controller/status/controller.go:478-480 | In tech preview both remote conditions stay as they were. |
| StatusOutcome.OthersAreKept | pkg/controller/status/conditions.go:97-114 | A condition of a type that the operator does not set stays exactly as it was. |
| StatusOutcome.OcmConditionsExactly | pkg/controller/status/controller.go:471-550 | SCAAvailable and ClusterTransferAvailable repeat reason and message of their ready source, true exactly for "Updated" and "PullSecretUpdated"; they are kept without such a source and while some source is not ready in the first three minutes. |
| StatusOutcome.ErrorExactly | pkg/controller/status/controller.go:303-346 | Available and not degraded, as expected, exactly without a degrading failure or when disabled; else degraded and unavailable in the words of the only degrading source ("UnknownError" for no reason), or under "MultipleFailures" with every one of their messages in it. Degrading are five failed uploads and server errors of the SCA and cluster transfer controllers. |
| StatusOutcome.ProgressingExactly | pkg/controller/status/controller.go:195-217 | Progressing is true exactly when the release and all listed versions parse and one of them has another major or minor number; else it is false, and says whether the operator is degraded. |
| StatusOutcome.DisabledExactly | pkg/controller/status/controller.go:439-497 | Disabled and GatheringDisabled and their reasons and messages: by configuration, which goes first, by the missing token, or not at all. |
| UidRanges.OverlapExactly | pkg/gatherers/clusterconfig/gather_namespaces_with_overlapping_uids.go:179-183 | Without overflow, IsOverlappingWith is the sharing of a UID exactly when no empty range ends inside the other range. |
| UidRanges.OverlapOfUidsExactly | pkg/gatherers/clusterconfig/gather_namespaces_with_overlapping_uids.go:179-183 | For ranges of non-negative UIDs: a range whose end leaves int64 is never seen to overlap, which is wrong exactly when the ranges interleave; otherwise overlap is wrong exactly for an empty range that ends inside the other. |
| UidRanges.SetBothOverlap | pkg/gatherers/clusterconfig/gather_namespaces_with_overlapping_uids.go:138-148 | True exactly when the set is not empty and both namespaces overlap every member. |
| UidRanges.BothOverlap | pkg/gatherers/clusterconfig/gather_namespaces_with_overlapping_uids.go:153-160 | The first set that takes both namespaces, if any. |
| UidRanges.Group | pkg/gatherers/clusterconfig/gather_namespaces_with_overlapping_uids.go:78-95 | Every set is a non-empty clique of overlapping ranges whose members overlap another namespace; every overlapping pair lies together in some set; and every set holds a pair that no earlier set can take, so a set is extended wherever it can be. |
| UidRanges.ReportedExactly | pkg/gatherers/clusterconfig/gather_namespaces_with_overlapping_uids.go:78-95 | A namespace is in some set exactly when it overlaps another one. |
| UidRanges.TogetherExactly | pkg/gatherers/clusterconfig/gather_namespaces_with_overlapping_uids.go:78-95 | Two namespaces with positive lengths that do not overflow are together in some set exactly when they share a UID. |
| UidRanges.SetsShareAUid | pkg/gatherers/clusterconfig/gather_namespaces_with_overlapping_uids.go:136-148 | All ranges of a set of positive lengths share one UID. |
| UidRanges.OneSetExactly | pkg/gatherers/clusterconfig/gather_namespaces_with_overlapping_uids.go:78-95 | Namespaces with positive lengths that do not overflow, two or more, are reported as exactly one set, of all of them, exactly when one UID belongs to all. |
| PodShapes.WorkloadContainerShapesEqual | pkg/gatherers/workloads/gather_workloads_info.go:474-486 | True exactly when images, first commands and first arguments agree, in order; the runtime key does not count. |
| PodShapes.WorkloadPodShapeIndex | pkg/gatherers/workloads/gather_workloads_info.go:459-471 | The last equal shape, or -1. |
| PodShapes.MatchingSpecIndex | pkg/gatherers/workloads/gather_workloads_info.go:640-652 | -1 exactly when the name is missing, else the hint if it fits, else the first such container. |
| PodShapes.KindExactly | pkg/gatherers/workloads/gather_workloads_info.go:217-233 | A pod is terminal exactly when succeeded or failed, ignored exactly in an unknown phase or with a status of other lengths than its spec, else invalid without a shape and counted under its shape with one. |
| PodShapes.SameKeyExactly | pkg/gatherers/workloads/gather_workloads_info.go:459-486 | Two shapes are the same exactly when both container lists agree in images, first commands and first arguments. |
| PodShapes.TallyPod | pkg/gatherers/workloads/gather_workloads_info.go:215-239 | One more pod keeps the tally exact: terminal, ignored, invalid, or one more of its shape. |
| PodShapes.PodsAreConserved | pkg/gatherers/workloads/types.go:49-72 | Count is terminal + ignored + invalid + the sum of duplicates + 1 over the shapes, which are pairwise unequal. |
| PodShapes.SendImages | pkg/gatherers/workloads/gather_workloads_info.go:242-248 | The images of init containers and containers are sent. |
| PodShapes.FirstPodSends | pkg/gatherers/workloads/gather_workloads_info.go:235-248 | Sending only the images of the first pod of a shape covers the images of all of them. |
| PodShapes.SentExactly | pkg/gatherers/workloads/gather_workloads_info.go:235-248 | An image is sent exactly when some container or init container of a pod counted under a shape has it. |
| Workloads.TakePage | pkg/gatherers/workloads/gather_workloads_info.go:193-249 | The loop over one page: takes all its pods, or stops exactly at the pod over the limit. |
| Workloads.WorkloadInfo | pkg/gatherers/workloads/gather_workloads_info.go:169-269 | For any pagination: fails exactly when the listing fails before 8001 pods; the limit flag holds exactly for more than 8000 pods; PodCount is min(pods, 8000); each namespace hash has the exact tally of its last run of pods; the images sent are exactly those of the counted valid pods. |
| Workloads.RunsCutThePods | pkg/gatherers/workloads/gather_workloads_info.go:193-213 | The runs of pods that are tallied are all pods in their order, each run of one namespace and the next of another. |
| WorkloadCounts.CountIsSumExactly | pkg/gatherers/workloads/gather_workloads_info.go:196-207 | PodCount is the sum of the namespace counts exactly when the hashes of the runs of namespaces are pairwise different, the run of the pod over the limit included. |
| WorkloadCounts.ListedByNamespaceSumUp | pkg/gatherers/workloads/gather_workloads_info.go:196-207 | So it is for pods listed namespace by namespace with hashes that do not collide. |
| Recording.Recorder.Record | pkg/recorder/recorder.go:60-135 | The new store and the errors or warnings: empty item, failed marshalling or anonymizing, overwritten name, repeated fingerprint; the limit is reported exactly for an anonymized record that need not be stored and whose marshalled length does not fit. |
| Recording.Recorder.Flush | pkg/recorder/recorder.go:139-157 | The driver gets each record with data exactly once, in descending order of their times; afterwards the recorder is empty even when saving fails, and unchanged when there was nothing with data. |
| Recording.Recorder.Copy | pkg/recorder/recorder.go:226-237 | For any order of visiting the map: each record with data, once. |
| Recording.Recorder.Clear | pkg/recorder/recorder.go:239-245 | Records, fingerprints and size are reset. |
| Recording.StoredAfterPut | pkg/recorder/recorder.go:108-118 | Storing under a name changes the stored bytes by the new length less the old one. |
| RecordingRuns.SizeIsStoredLessDrift | pkg/recorder/recorder.go:108-133 | After any run the recorder holds the latest record of each name and the fingerprints stored since it was emptied, and size is the stored bytes less all that anonymizing added. |
| RecordingRuns.SizeIsExact | pkg/recorder/recorder.go:108-118 | With anonymizing that keeps lengths, size is the sum of the stored lengths. |
| RecordingRuns.SizeExactly | pkg/recorder/recorder.go:82-118 | Under an anonymizer the size is the stored bytes in every run exactly when it keeps the length of every record. |
| RecordingRuns.AcceptedExactly | pkg/recorder/recorder.go:64-133 | After any run a record is stored, anonymized and under its own name, exactly when it is marshalled, anonymized, and always stored or within the limit by its marshalled length; otherwise nothing changes. |
| RecordingRuns.AlwaysStoredStays | pkg/recorder/recorder.go:99-119 | An always stored record is in the recorder, whatever the limit, until a flush or another record of its name. |
| RecordingRuns.WarnedExactly | pkg/recorder/recorder.go:108-131 | A stored record is warned of exactly when its name, with the fingerprint of the latest one, or its fingerprint has been stored since the recorder was emptied. |
| RecordingRuns.FlushOfRun | pkg/recorder/recorder.go:139-157 | Each flush of a run hands over exactly the latest record with data of each name stored since the last flush that found any, and nothing is left. |
| RecordingRuns.BudgetHolds | pkg/recorder/recorder.go:100-118 | The bytes of records that are not always stored never exceed the limit by more than what anonymizing added. |
| RecordingRuns.BudgetIsRespected | pkg/recorder/recorder.go:100-118 | With anonymizing that lengthens no record they never exceed the limit. |
| RecordingRuns.BudgetExactly | pkg/recorder/recorder.go:82-118 | Under an anonymizer the budget is respected in every run and for every limit exactly when it lengthens no record. |
| RecordingRuns.OneRecord | pkg/recorder/recorder.go:92-118 | A single record whose marshalled length is the limit is accepted, and takes the length that the anonymizer gives it. |
| InstallPlans.CollectInstallPlan | pkg/gatherers/clusterconfig/gather_install_plans.go:130-164 | One more item keeps one plan per key, counted as often as the key occurs and named after the first item of the key: namespace, generated name, and first CSV name or "[NONE]"; a malformed item is an error. |
| InstallPlans.Collect | pkg/gatherers/clusterconfig/gather_install_plans.go:110-119 | Fails exactly when an item is malformed; else the plans are those of all items, counted and named as above. |
| InstallPlans.CountsAddUp | pkg/gatherers/clusterconfig/gather_install_plans.go:114-119 | The counts add up to the number of items. |
| InstallPlans.DotsMergePlans | pkg/gatherers/clusterconfig/gather_install_plans.go:156 | Two plans whose names differ only in where a dot falls are counted as one. |
| InstallPlans.KeysExactly | pkg/gatherers/clusterconfig/gather_install_plans.go:156 | Keys are equal exactly when namespaces are and either both names are or a dot and what follows it moves between generated name and CSV; namespaces have no dots. |
| InstallPlans.CountedApartExactly | pkg/gatherers/clusterconfig/gather_install_plans.go:156-162 | Every plan is counted for itself exactly when no dot moves between the names of two plans of one namespace. |
| InstallPlans.NamesWithoutDotsAreCountedApart | pkg/gatherers/clusterconfig/gather_install_plans.go:156-162 | So it is when generated names have no dots. |
| InstallPlanReport.Marshal | pkg/gatherers/clusterconfig/gather_install_plans.go:167-214 | For any two orders of visiting the map: the totals, and the plans the loop selects, no plan after a less frequent one. |
| InstallPlanTop.ReportIsFullAndFrequent | pkg/gatherers/clusterconfig/gather_install_plans.go:167-211 | In every order exactly min(limit, plans) plans are reported (100 for limit 0), all of them collected ones, each with at least the limit-th largest count. |
| InstallPlanTop.MostFrequentExactly | pkg/gatherers/clusterconfig/gather_install_plans.go:167-211 | The most frequent plans are reported in every order exactly when all fit, the limit falls between two different counts, or all counts up to the limit are equal. |
| InstallPlanTop.DistinctCountsAreTop | pkg/gatherers/clusterconfig/gather_install_plans.go:167-211 | So they are when the counts are distinct. |
| InstallPlanTop.BadOrder | pkg/gatherers/clusterconfig/gather_install_plans.go:189-207 | Otherwise there is an order that leaves out a plan more frequent than a reported one. |

## Left out

- Text replacement: `AnonymizeData` finds addresses with a regular expression and replaces them in data and names; here a run is a sequence of `ObfuscateIP` calls.
- Texts as table keys: IPv4 addresses are keys by their four bytes, of which the canonical text is one-to-one; IPv4-mapped IPv6 texts are not distinguished from them.
- Lengths of IPv4 networks in more than two digits: `ParseCIDRs` also takes texts with more leading zeros.  IPv6 networks of a list are modelled, except IPv4-mapped ones.
- Networks without a slash: `sortNetworks` has a branch for them, but `ParseCIDRs` refuses such a list, so all networks here have one.
- `StoreTranslationTable`, `readNetworkConfigs` outside its loop, and everything else that talks to the API server: input and output only.
- The `lineFunc` argument of `ReadAllLinesWithPrefix`: it is not applied to a line that is completed across two reads, so the result would depend on the cuts.
- LineLimit.LineLimitedReader.Read: the caller's buffer is not modelled; a chunk is whatever the underlying reader puts into it.
- Contexts, timeouts and logging in the task pool and the log fan-in; a task returns or panics, and a container's stream yields one message.
- The mapping of pods to containers and the filtering of one container's log: they appear in the fan-in as the messages they produce.
- Concurrent updates of a status source during a merge: one merge sees one answer of every source and of the configuration.
- Serialization of times: the equality of statuses compares times as they are in memory.
- Condition statuses other than True, False and Unknown, which the API does not admit.
- Parsing of the UID annotation and the order of names within a reported set; a set in the result list is replaced at its index instead of being shared.
- The shapes of containers (image IDs from status or spec) are given with the pod; runtime information, the image cache and the channel of image IDs are not modelled beyond which images are sent.
- An endless listing: pages that never end are not modelled.
- A `Record` call between the copy and the clearing of a concurrent `Flush`: the model's calls do not interleave.
- Overflow of the recorder's int64 size, `ensureSafeFilenameLength`, pruning, and the disk recorder, which is not part of this model.
- Listing of install plans across namespaces and pages: the items of all pages are one list.
- Helm charts, the merging of configurations, data-gather conditions and the individual gatherers that list resources: each is a single loop or a field-by-field copy.
