# adOmnia: a verified model of its algorithmic core

adOmnia is a desktop workbench for APIs, browsers and code, with a headless command line. Most of it is
plumbing; these parts carry algorithms, and the modules here model them and prove what they are for.

- **Flow stress runner** (`StressModel`, `StressSchedule`, `StressWorkers`, `StressFlow`, `StressStats`): the
  staged load schedule; the virtual-user workers that claim iterations from one shared counter, as a state
  machine over every interleaving; the bounded walk over a flow graph; percentiles, APDEX and error groups.
- **Collection editor** (`CollectionTree`, `CollectionSync`, `CollectionHeap`): upsert, removal and insertion in
  a tree of folders and requests, and regeneration of a collection from scanned routes. The first two modules
  hold the functions and their laws; `CollectionHeap` runs the same edits on mutable blocks that can share
  memory and proves that they compute those functions without touching the tree the caller still holds.
- **Environments** (`Environments`): the keyed merge of variables and the list of named environments.
- **Secret masking** (`Redaction`, `SecretMask`): masking in UTF-8 text that moves no position, and the mask of
  decoded JSON.
- **Browser session** (`CdpSession`, `TrafficLog`): replies matched to commands over every interleaving of
  callers, readers and timeouts; the bounded traffic list.
- **Affected packages** (`AffectedPackages`): the worklist over reverse imports.
- **Activity manager** (`ActivityManager`): the state of windows and workspaces.
- **AWS signing** (`AwsCanonical`, `AwsHeaders`): percent-encoding, the canonical query and header block.
- **File listing** (`FileListing`): the depth- and size-bounded walk over a workspace folder.

`Text`, `Sequences`, `Sorting`, `StringOrder` and `Wrappers` hold what several modules share. Where the program loops over
a Go map, the model picks keys in an arbitrary order. Code that updates state in place is a method over fields,
arrays or blocks, proved equal to a function; the laws are lemmas about that function. Two concurrent protocols,
the workers and the browser session, are state machines whose lemmas quantify over every run.

Some laws one would expect of the program do not hold, and the model keeps the code as it is:

- A negative `warmupS` makes the throughput denominator longer than the measured time; `DenominatorIsExact`
  gives the exact condition.
- A negative `retryCount` makes a request step fail without being attempted, with an empty observation that is
  not marked as failed. `WhenFlowsFail` says for every run when a flow fails; `FailsVisiblyIff` says for which
  graphs a flow can never fail without a failed observation or a failed end.
- A browser that answers an id twice can block the reader. `RepliesBlockIff` says exactly which replies can do
  so, and `StaysBlockedIff` when the reader stays blocked for good.
- Headers whose names differ only in case make the signed header block depend on map order;
  `OrderDoesNotMatterIff` gives the exact condition, `HostTwice` an input that fails.
- Environment ids can repeat after a rename (`IdsCanRepeat`); `IdsStayUniqueIff` gives the exact condition.

## Model

| member | source | states |
|---|---|---|
| StressSchedule.CheckStages | internal/adomniacli/stress.go:301-314 | A stage list is accepted exactly when every stage is valid; then the run length is the sum of the durations and the pool is the largest target. |
| StressSchedule.StressTargetAt | internal/adomniacli/stress.go:399-414 | The loop over the stages computes the target the lemmas below speak about. |
| StressSchedule.TargetWithinStage | internal/adomniacli/stress.go:402-409 | Within a stage the target lies between the previous and the stage's own target and moves only towards it, after rounding. |
| StressSchedule.TargetAfterEnd | internal/adomniacli/stress.go:413-413 | From the end of the last stage on, nobody is wanted. |
| StressSchedule.TargetWithinPeak | internal/adomniacli/stress.go:330-330 | At any moment the target is between 0 and the peak, so no worker index outside the pool is needed. |
| StressSchedule.PeakIsReached | internal/adomniacli/stress.go:309-311 | The pool is tight: at some moment of the schedule all its workers are wanted, even when a ramp fills its stage. |
| StressSchedule.StressMeasuredAt | internal/adomniacli/stress.go:415-427 | The loop decides whether a moment is measured, for both kinds of plan. |
| StressSchedule.ComputeMeasuredDuration | internal/adomniacli/stress.go:428-440 | The loop computes the measured duration the lemmas below speak about. |
| StressSchedule.MeasuredDurationIsMeasuredLength | internal/adomniacli/stress.go:415-440 | For valid stages, and for any warm-up, the growth of the measured duration over an interval is exactly the length of the part of the interval that is measured. |
| StressSchedule.SteadyCutsExist | internal/adomniacli/stress.go:415-427 | Every interval can be cut into pieces on which being measured does not change, so that length always exists. |
| StressSchedule.DenominatorIsExact | internal/adomniacli/stress.go:379-379 | The throughput denominator equals the measured part of the run if and only if the plan is staged or its warm-up is not negative (for runs of positive length). |
| StressSchedule.NegativeWarmupOvercounts | internal/adomniacli/stress.go:428-431 | A concrete plan whose denominator is longer than the whole run. |
| StressWorkers.StepInv | internal/adomniacli/stress.go:325-366 | Every step of every worker keeps the invariant: claims have one owner each, finished runs carry different indexes, the counter is exact. |
| StressWorkers.RunInv | internal/adomniacli/stress.go:321-377 | The invariant holds after every interleaving. |
| StressWorkers.NoIndexTwice | internal/adomniacli/stress.go:334-337 | On no interleaving is an iteration index executed by two workers, or, in iterations mode, beyond the configured number. |
| StressWorkers.AllIterationsExecutedOnce | internal/adomniacli/stress.go:315-377 | In iterations mode, when all workers have returned, each index below the number of iterations was executed exactly once, the counter is iterations plus workers, and failed <= measured <= iterations. |
| StressWorkers.NothingIsLost | internal/adomniacli/stress.go:356-366 | At every moment of every run, what was reported and what is in flight add up to what was produced: each observation, the excluded ones, the measured and the failed iterations. |
| StressWorkers.StepsConsumeRank | internal/adomniacli/stress.go:325-370 | Each step of a run in iterations mode uses up a measure. |
| StressWorkers.NoDeadlock | internal/adomniacli/stress.go:325-377 | Unless all workers have returned, some worker can act. |
| StressWorkers.EveryRunTerminates | internal/adomniacli/stress.go:334-337 | In iterations mode no interleaving is longer than 4 * iterations + 5 * workers steps, and one that cannot be extended ends with all workers returned. |
| StressFlow.ValidateStressPlan | internal/adomniacli/stress.go:254-279 | A graph is accepted exactly when it is valid, and a rejection names the first offending node or edge with its reason. |
| StressFlow.AttemptVerdict | internal/adomniacli/stress.go:517-586 | On every path of an attempt the observation is marked failed exactly when the walk takes the error branch. |
| StressFlow.RetryOutcome | internal/adomniacli/stress.go:486-491 | With a retry count of at least 0 a step reports its first successful attempt, or else its last one, and the attempts see the world the earlier ones left. |
| StressFlow.ExecuteWithRetries | internal/adomniacli/stress.go:484-491 | The retry loop computes that outcome. |
| StressFlow.NextIsChosen | internal/adomniacli/stress.go:600-612 | The next node is the target of the first edge with the branch, else of the first next or else edge, and empty exactly when there is neither; in a valid graph it is a node of the graph. |
| StressFlow.StressNext | internal/adomniacli/stress.go:600-612 | The two loops over the edges find that target. |
| StressFlow.FindStart | internal/adomniacli/stress.go:444-466 | The entry is the first start node, else the first node without incoming edges. |
| StressFlow.Visiting | internal/adomniacli/stress.go:475-511 | The branch, observations and effects of one visited node. |
| StressFlow.ExecuteStressFlow | internal/adomniacli/stress.go:442-515 | The loop with its accumulated observations and flag gives what the recursive walk gives. |
| StressFlow.WalkIsLegal | internal/adomniacli/stress.go:474-513 | A walk visits only nodes of the graph, leaves each by a branch of its kind to the node that branch chooses, and takes at most the allowed number of steps. |
| StressFlow.OneObservationPerRequest | internal/adomniacli/stress.go:480-492 | Each visited request contributes exactly one observation, in order, failed exactly when the walk took the error branch there. |
| StressFlow.WhenFlowsFail | internal/adomniacli/stress.go:479-514 | A flow fails if and only if an observation failed, it stopped at an end node marked failed, or it visited a request with a negative retry count. |
| StressFlow.MoreStepsChangeNothing | internal/adomniacli/stress.go:467-474 | A walk that was not cut off is the same under any larger step limit. |
| StressFlow.WalkNeverRepeats | internal/adomniacli/stress.go:474-513 | On an acyclic graph no node is visited twice. |
| StressFlow.AcyclicWalksAreNotTruncated | internal/adomniacli/stress.go:467-474 | On an acyclic graph a step limit of at least the number of nodes never cuts a walk off. |
| StressFlow.FlowRun | internal/adomniacli/stress.go:442-515 | The main result for an accepted plan with retry counts of at least 0: legal walk within the step limit, one observation per request, failure exactly for a failed observation or a failed end. |
| StressFlow.NoSilentFailures | internal/adomniacli/stress.go:442-515 | On a graph without a silent path, every run in every environment fails exactly for a failed observation or a failed end. |
| StressFlow.FailsVisiblyIff | internal/adomniacli/stress.go:442-515 | That holds of a graph if and only if none of its paths within the step limit, on which requests succeed and conditions keep their answer until an extraction or a request changes what they read, passes a request with a negative retry count without stopping at a failed end. |
| StressFlow.NegativeRetryFailsSilently | internal/adomniacli/stress.go:484-494 | A concrete valid graph whose flow fails although no observation failed and no end node was reached. |
| StressStats.SummarizeStress | internal/adomniacli/stress.go:709-780 | The summary counts requests and errors, gives every status its count so that the counts sum to the requests, takes nearest-rank percentiles of the latencies with a response, and lists exactly the gates that do not hold. |
| StressStats.PercentileIsNearestRank | internal/adomniacli/stress.go:734-741 | A percentile is the nearest-rank element: at least ceil(p * n) latencies are at most it, fewer are strictly below. |
| StressStats.PercentilesAreOrdered | internal/adomniacli/stress.go:734-741 | A higher percentile is never smaller, so P50 <= P95 <= P99. |
| StressStats.ApdexBound | internal/adomniacli/stress.go:742-755 | The unrounded APDEX is at most one minus the share of errors, and the rounded one lies between 0 and 1. |
| StressStats.GroupStressErrors | internal/adomniacli/stress.go:825-866 | The groups are those of the failures by normalised message in first-seen order, the first 200 messages with a group of their own; the reported ones are the top five. |
| StressStats.ReportGroups | internal/adomniacli/stress.go:857-865 | The reported groups are the first five of a stable ranking by descending count. |
| StressStats.StableRankRanks | internal/adomniacli/stress.go:857-857 | That ranking is a permutation in which counts never increase and ties keep first-seen order. |
| StressStats.GroupOfCounts | internal/adomniacli/stress.go:844-855 | A group counts all its failures, shows message and status of the first, and names at most three different steps. |
| StressStats.GroupsCoverErrors | internal/adomniacli/stress.go:825-856 | There are at most 201 groups and their counts sum to the number of errors. |
| CollectionTree.RemoveRequests | internal/adomniacli/mcp_write.go:286-300 | Removing drops exactly the requests with the id; all others keep their content and preorder. |
| CollectionTree.ReplaceRequests | internal/adomniacli/mcp_write.go:270-284 | Replacing changes the content of that id only and moves nothing. |
| CollectionTree.InsertRequests | internal/adomniacli/mcp_write.go:302-325 | Inserting at a folder path adds one request to the preorder and moves no other. |
| CollectionTree.PutEdits | internal/adomniacli/mcp_write.go:249-268 | After an upsert the id occurs exactly once with the new content and every other request is as it was, in the old order; deleting it leaves the rest of the old tree. |
| CollectionTree.UpsertAccepts | internal/adomniacli/mcp_write.go:239-252 | An upsert is accepted if and only if every reached payload decodes and none with another id has the same method and URL. |
| CollectionTree.ResolveReaches | internal/collectionresolve/resolve.go:51-77 | Resolving succeeds exactly when every request reached through folders decodes, and lists them in preorder. |
| CollectionTree.UpsertKeepsTidy | internal/adomniacli/mcp_write.go:239-268 | Upserts keep ids unique and (method, URL) unique; the id is there once with the new content; the rest of the tree, folders and their settings included, is what it was, with the folders the path needs. |
| CollectionTree.InsertedAtPath | internal/adomniacli/mcp_write.go:302-325 | The folder at the requested path ends with the inserted nodes, and holds what it held before in front of them. |
| CollectionTree.InsertKeepsPlaces | internal/adomniacli/mcp_write.go:302-325 | Whatever lay at a position of the tree lies there after an insertion, with its name, settings and payload; only folders get more children. |
| CollectionTree.ReplacedInPlace | internal/adomniacli/mcp_write.go:270-284 | After a replacement every position holds what it held, with the new content where the id was. |
| CollectionTree.UpsertPlaces | internal/adomniacli/mcp_write.go:254-267 | The request is last in the requested folder; without a folder every position of the tree keeps what it held, with the new content where the id was, or a new request is last at the root. |
| CollectionTree.UpsertTwice | internal/adomniacli/mcp_write.go:239-268 | Upserting the same request twice is upserting it once. |
| CollectionTree.RemoveAfterPut | internal/adomniacli/mcp_write.go:239-268 | Whether the id was there or not, deleting it after an upsert leaves what deleting it before would have left, up to the folders the path needs. |
| CollectionTree.RemoveUndoesPut | internal/adomniacli/mcp_write.go:160-164 | Deleting a request an upsert added gives the old tree back, up to the folders the upsert created. |
| CollectionSync.FailureStays | internal/adomniacli/mcp_write.go:91-96 | A route that fails makes the whole sync fail with the same answer. |
| CollectionSync.CustomRequestsStay | internal/adomniacli/mcp_write.go:327-337 | Dropping generated requests keeps the custom ones in their old order. |
| CollectionSync.IdIdentifiesRequest | internal/adomniacli/mcp_write.go:87-90 | With an injective hash, equal generated ids mean equal method and path, hence the same request. |
| CollectionSync.GeneratedNodes | internal/adomniacli/mcp_write.go:80-98 | The generated nodes are exactly those of the usable routes, with pairwise different ids. |
| CollectionSync.SyncRoutesBuild | internal/adomniacli/mcp_write.go:80-98 | After the routes so far, the tree is the cleaned one followed by one node per usable method and path, in first-seen order. |
| CollectionSync.SyncResult | internal/adomniacli/mcp_write.go:61-106 | A successful sync leaves the old tree without its generated requests, followed by the generated ones; the custom requests keep content and order. |
| CollectionSync.SyncTwice | internal/adomniacli/mcp_write.go:61-106 | A second sync with the same routes gives the same tree. |
| CollectionSync.SyncSucceedsIff | internal/adomniacli/mcp_write.go:80-96 | The route loop succeeds if and only if each usable route makes a valid request that clashes neither with a request that stayed nor with an earlier route. |
| CollectionHeap.RemoveMCPRequest | internal/adomniacli/mcp_write.go:286-300 | Builds a fresh tree that is the old one without the id, and says whether it was there; no old block changes. |
| CollectionHeap.ReplaceMCPRequest | internal/adomniacli/mcp_write.go:270-284 | Builds a fresh tree with the request in place of its id, and says whether it was there; no old block changes. |
| CollectionHeap.RemoveGeneratedRequests | internal/adomniacli/mcp_write.go:327-337 | Builds a fresh tree without the generated requests; no old block changes. |
| CollectionHeap.ResolveRequests | internal/collectionresolve/resolve.go:51-77 | The recursive loop computes the preorder of the payloads, or fails. |
| CollectionHeap.InsertMCPRequestAtFolder | internal/adomniacli/mcp_write.go:302-325 | Writes into the given blocks in place and leaves the tree with the request inserted; only blocks of that tree change. |
| CollectionHeap.Collection.UpsertMCPRequest | internal/adomniacli/mcp_write.go:239-268 | Leaves the upserted tree, or the old one on a refusal; it modifies only the collection's own field, so the blocks of the caller's old tree are unchanged. |
| CollectionHeap.Collection.DeleteRequest | internal/adomniacli/mcp_write.go:149-168 | Removes the id, or changes nothing when it is not there. |
| CollectionHeap.Collection.CollectionCreateFromCode | internal/adomniacli/mcp_write.go:61-106 | The loop of in-place upserts gives what the sync function gives; on any failure the collection keeps its old tree. |
| Environments.MergeVariables | internal/adomniacli/mcp_environment.go:148-163 | The loop with its index map computes the merge, on any lists. |
| Environments.MergeIsAssociative | internal/adomniacli/mcp_environment.go:148-163 | Merging is associative, on lists with repeated keys too. |
| Environments.MergeWithNothing | internal/adomniacli/mcp_environment.go:148-163 | On unique keys the empty list is an identity on both sides, and merging a list with itself changes nothing. |
| Environments.UpdatesWin | internal/adomniacli/mcp_environment.go:154-161 | Under every key the merge holds the update if there is one, else the current value. |
| Environments.MergeKeepsPlaces | internal/adomniacli/mcp_environment.go:149-158 | Current variables keep their positions, and their values where no update has their key. |
| Environments.MergeKeepsUnique | internal/adomniacli/mcp_environment.go:154-161 | Keys stay unique. |
| Environments.MergeAppendsTheNew | internal/adomniacli/mcp_environment.go:159-160 | Behind the current variables come exactly the updates with new keys, in their order. |
| Environments.ValidateEnvironment | internal/adomniacli/mcp_environment.go:101-121 | An environment is accepted exactly when its name is valid, it is not private and its trimmed keys are unique, not empty and at most 256 bytes long; the trimmed keys are written back. |
| Environments.FindEnvironment | internal/adomniacli/mcp_environment.go:123-146 | The loop gives the position the id or the name stands at last, or the reason for a refusal. |
| Environments.Folder.Upsert | internal/adomniacli/mcp_environment.go:18-66 | Leaves the upserted list, or the old one on a refusal, and reports the id and whether the environment was created. |
| Environments.Folder.Delete | internal/adomniacli/mcp_environment.go:68-99 | Leaves the list without the name, or the old one when it is empty or unknown. |
| Environments.UpsertKeepsNames | internal/adomniacli/mcp_environment.go:41-61 | Names stay unique, the new content is there, and nothing else is lost or added but the environment whose place it takes. |
| Environments.DeleteKeepsNames | internal/adomniacli/mcp_environment.go:83-97 | Names stay unique, and exactly the named environment is gone. |
| Environments.NamesStayUnique | internal/adomniacli/mcp_environment.go:18-99 | Names stay unique over every sequence of upserts and deletes. |
| Environments.UpsertTwice | internal/adomniacli/mcp_environment.go:18-66 | The same upsert again changes nothing, merging or not. |
| Environments.IdsStayUniqueIff | internal/adomniacli/mcp_environment.go:45-58 | What the folder holds after an accepted upsert keeps its ids unique if and only if the upsert does not create an environment whose derived id an environment that stays already has. |
| Environments.IdsCanRepeat | internal/adomniacli/mcp_environment.go:45-58 | A concrete run, create, rename by id, create again, that leaves two environments with one id, one of which can no longer be updated under its own id and name. |
| Redaction.DecodeEncoded | internal/airedact/redact.go:76-76 | Decoding a code point undoes its UTF-8 encoding, whatever follows. |
| Redaction.MaskRuneKeepsWidth | internal/airedact/redact.go:101-116 | A mask has the byte width and the UTF-16 width of the code point, keeps line breaks, adds none, and is its own mask. |
| Redaction.MaskRange | internal/airedact/redact.go:83-99 | On any bytes and bounds the array is overwritten in place only inside a valid range; the length stays. |
| Redaction.MaskText | internal/airedact/redact.go:72-81 | The index loop computes the masked text, on any bytes. |
| Redaction.MaskWholeText | internal/airedact/redact.go:72-99 | On valid UTF-8 both mask functions mask every code point. |
| Redaction.MaskKeepsPositions | internal/airedact/redact.go:39-41 | Whatever code points are masked, every boundary keeps its byte and UTF-16 offset and every CR and LF stays. |
| Redaction.MaskedRangeOnBoundaries | internal/airedact/redact.go:83-99 | A byte range on code-point boundaries masks exactly those code points. |
| Redaction.RangesMaskTheirUnion | internal/airedact/redact.go:50-60 | Masking ranges one after another masks what they cover together, overlaps included. |
| Redaction.MaskRangesAnyOrder | internal/airedact/redact.go:50-60 | The order and repetition of ranges do not matter. |
| Redaction.MaskRangesTwice | internal/airedact/redact.go:50-60 | Masking the same ranges again changes nothing. |
| Redaction.MaskRangesKeepPositions | internal/airedact/redact.go:50-60 | Text outside the ranges is unchanged and no position moves. |
| Redaction.ReplaceAllMasks | internal/airedact/redact.go:62-65 | Replacing matches found from left to right masks exactly what they cover. |
| Redaction.PatternsMask | internal/airedact/redact.go:62-65 | Applying the patterns one after another masks exactly what each of them matches in the text the earlier ones left. |
| Redaction.Redact | internal/airedact/redact.go:42-67 | The passes over the byte buffer and the patterns compute the redacted text. |
| Redaction.RedactKeepsPositions | internal/airedact/redact.go:39-67 | On valid text, redaction moves no position and masks exactly the code points of the assignment and password matches in the original text and of the matches of each token pattern in its turn. |
| SecretMask.MaskSecretsInto | internal/adomniacli/mcp_tools.go:347-368 | The loops that fill a fresh map or slice compute the mask for every map order. |
| SecretMask.MaskAtPath | internal/adomniacli/mcp_tools.go:347-368 | At every path the output has a value of the same kind; a leaf becomes the mask exactly when it is a secret string, and is unchanged otherwise. |
| SecretMask.MaskAddsNothing | internal/adomniacli/mcp_tools.go:347-368 | The output has no path the input does not have. |
| SecretMask.MaskTwice | internal/adomniacli/mcp_tools.go:347-368 | Masking twice is masking once. |
| SecretMask.MaskHidesExactlySecrets | internal/adomniacli/mcp_tools.go:347-368 | Two values give the same output if and only if they differ at most in the contents of secret strings. |
| TrafficLog.BrowserDebug.HandleRequestWillBeSent | internal/browser/browser.go:453-484 | Appends an entry, dropping the oldest at 500. |
| TrafficLog.BrowserDebug.HandleResponseReceived | internal/browser/browser.go:486-512 | The downward loop writes the response into the newest entry of the id, if there is one. |
| TrafficLog.BrowserDebug.HandleLoadingFinished | internal/browser/browser.go:514-532 | The downward loop completes the newest entry of the id, with a duration only when both timestamps are positive. |
| TrafficLog.BrowserDebug.ClearTraffic | internal/browser/browser.go:286-291 | Nothing is listed any more, and the next events start a new log. |
| TrafficLog.UpdateKeepsWindow | internal/browser/browser.go:503-531 | Updating the newest entry of an id commutes with keeping only the end of the log. |
| TrafficLog.NewestStep | internal/browser/browser.go:453-532 | One event on the bounded list shows what it does to the unbounded log. |
| TrafficLog.TrafficIsNewestLog | internal/browser/browser.go:286-532 | For every sequence of events the list equals the last 500 entries of the unbounded log. |
| CdpSession.StepInv | internal/browser/browser.go:338-431 | Every step keeps ids fresh, the pending table exact, and replies on the channel of their own id. |
| CdpSession.RunInv | internal/browser/browser.go:338-431 | These hold after every interleaving, whatever the browser sends. |
| CdpSession.StepOnePlace | internal/browser/browser.go:338-431 | If each id is answered at most once, a reply is in one place at a time. |
| CdpSession.CallersGetTheirOwnReply | internal/browser/browser.go:338-386 | On every interleaving the next id was never used, a caller only gets a reply to its own id, and no table entry outlives its call. |
| CdpSession.ReadersNeverBlock | internal/browser/browser.go:418-426 | If each id is answered at most once, a reader can always deliver at once. |
| CdpSession.ReturnedIsFinal | internal/browser/browser.go:358-386 | A call that returned never changes again. |
| CdpSession.LateReplyIsDropped | internal/browser/browser.go:419-425 | A reply to an id without a table entry changes nothing but the record of answered ids. |
| CdpSession.CallsCanAlwaysReturn | internal/browser/browser.go:358-385 | Until a call has returned, one of its own steps can run, whatever the readers do. |
| CdpSession.BlockedOnlyByDuplicates | internal/browser/browser.go:422-424 | A reader is blocked only if some id was answered twice. |
| CdpSession.TwoRepliesBlock | internal/browser/browser.go:376-424 | From every state that keeps the invariant, two replies to a waiting call with an empty channel can block any reader that reads both. |
| CdpSession.SecondReplyBlocks | internal/browser/browser.go:376-424 | Replies to other ids between the two change nothing, when the waiting call is alone in the table. |
| CdpSession.RepliesBlockIff | internal/browser/browser.go:338-431 | For every list of replies: some run that reads a beginning of it ends with a blocked reader if and only if two of the replies answer the same id. |
| CdpSession.BlockedForever | internal/browser/browser.go:376-424 | While the outcome of its call is known, a blocked reader stays blocked on every continuation. |
| CdpSession.ReceivingUnblocks | internal/browser/browser.go:376-382 | If the call can still receive, some continuation frees the reader. |
| CdpSession.StaysBlockedIff | internal/browser/browser.go:376-424 | A blocked reader stays blocked on every continuation if and only if the outcome of its call is known. |
| CdpSession.DuplicateReplyBlocks | internal/browser/browser.go:376-424 | A concrete run, a reply, a second one and a timeout, after which the reader is stuck for good. |
| AffectedPackages.Propagate | internal/codestudio/affected_packages.go:83-92 | The worklist loop marks exactly the packages reachable through reverse imports and enqueues each exactly once. |
| AffectedPackages.CollectImporters | internal/codestudio/affected_packages.go:67-74 | The importers map holds exactly the reverse of the listed normal imports. |
| AffectedPackages.FindRoots | internal/codestudio/affected_packages.go:75-82 | The queue starts with the packages of the patterns' directories, each once. |
| AffectedPackages.AffectedPackages | internal/codestudio/affected_packages.go:65-119 | The answer is sorted, without repetitions, and holds exactly the patterns and the in-module packages that are reachable or whose tests import a reachable one. |
| AffectedPackages.ReachableDistributes | internal/codestudio/affected_packages.go:83-92 | What is reachable from a union of roots is what is reachable from either. |
| AffectedPackages.AffectedDistributes | internal/codestudio/affected_packages.go:65-119 | Asking for two sets of patterns at once gives the union of both answers. |
| AffectedPackages.AnswerIsUnique | internal/codestudio/affected_packages.go:113-118 | Packages and patterns determine the answer, whatever order maps yield their keys in. |
| ActivityManager.Manager.Report | internal/activity/manager.go:68-86 | A report is accepted exactly when it is valid and there is room among the live windows; then the window is recorded and the snapshot is right; a refused one changes no live window, and there are never more than 128. |
| ActivityManager.Manager.CheckScopes | internal/activity/manager.go:73-77 | The scopes pass exactly when none is empty and each has at most 256 bytes. |
| ActivityManager.Manager.RemoveWindow | internal/activity/manager.go:87-92 | Exactly that window goes, and every listener is called once. |
| ActivityManager.Manager.PruneLocked | internal/activity/manager.go:93-101 | Exactly the live windows stay. |
| ActivityManager.Manager.Notify | internal/activity/manager.go:116-126 | Every subscribed listener is called exactly once. |
| ActivityManager.Manager.Subscribe | internal/activity/manager.go:104-114 | Each subscription gets an id never used before. |
| ActivityManager.Manager.BaseStateLocked | internal/activity/manager.go:127-141 | For every map order: Active if a window on the scope is, else Idle if one is, else Background. |
| ActivityManager.Manager.StateLocked | internal/activity/manager.go:142-161 | For every map order: Active if a window on the scope is, else Suspended if the scope has resources and all are released, else what the windows say. |
| ActivityManager.Manager.GetState | internal/activity/manager.go:162-167 | The state of the scope after dead windows are dropped. |
| ActivityManager.Manager.CanSuspend | internal/activity/manager.go:168-170 | A resource may be suspended exactly when it is ready, of the releasable kind, and no live window on the scope is active. |
| ActivityManager.Manager.SnapshotLocked | internal/activity/manager.go:185-201 | The snapshot lists exactly the scopes of windows and resources, each with its state, and the overall state. |
| ActivityManager.Manager.Released | internal/activity/manager.go:176-183 | Marks a known resource as released and changes nothing else. |
| ActivityManager.Manager.Track | internal/activity/manager.go:171-175 | The resource is known as not released, whatever it was before. |
| ActivityManager.Manager.Forget | internal/activity/manager.go:184-184 | Exactly that resource goes. |
| ActivityManager.Manager.Unsubscribe | internal/activity/manager.go:113-113 | Exactly that listener goes; doing it again changes nothing. |
| ActivityManager.GlobalSuspension | internal/activity/manager.go:142-161 | When the whole is suspended, every scope with a resource is suspended. |
| ActivityManager.GlobalSuspensionIff | internal/activity/manager.go:142-161 | The whole is suspended if and only if something is tracked, no window is active anywhere, and every scope with a resource is suspended. |
| ActivityManager.TrackingResumes | internal/activity/manager.go:171-183 | Tracking a resource takes its scope out of suspension; releasing one never takes a scope out. |
| ActivityManager.ActiveWindowWins | internal/activity/manager.go:133-146 | After an active report every scope it covers is Active. |
| AwsCanonical.EscapeRoundTrip | internal/adomniacli/auth.go:211-211 | Escaped text holds only unreserved characters and percent triplets, and percent-decoding gives the bytes back (sections 2.1 and 2.3 of RFC 3986). |
| AwsCanonical.CanonicalQuery | internal/adomniacli/auth.go:198-210 | For every map order the result is the sorted, joined text of exactly the pairs, an empty value list counting as one empty value. |
| AwsCanonical.CanonicalQueryIsUnique | internal/adomniacli/auth.go:198-210 | The values have only one canonical query, whatever order the map yields its keys in. |
| AwsCanonical.CanonicalQueryRoundTrip | internal/adomniacli/auth.go:198-210 | Splitting a canonical query and decoding its parts gives back every pair as often as the values hold it. |
| AwsHeaders.UniqueStrings | internal/adomniacli/auth.go:212-220 | The kept values are written over the front of the array; the rest of the array stays. |
| AwsHeaders.DedupSorted | internal/adomniacli/auth.go:136-137 | On a sorted list every value survives exactly once, in order. |
| AwsHeaders.CanonicalHeaders | internal/adomniacli/auth.go:129-142 | The loops build the header block and the signed names for the order in which the map happened to yield its keys. |
| AwsHeaders.OrderDoesNotMatterIff | internal/adomniacli/auth.go:129-141 | The block is the same for all orders if and only if headers whose names differ only in case have the same trimmed value. |
| AwsHeaders.HostTwice | internal/adomniacli/auth.go:123-135 | The headers Host: a and host: b have two orders with different results. |
| FileListing.Lister.Walk | internal/adomniacli/mcp_files.go:171-205 | The recursive walk appends the folder's complete listing up to the limit and says whether there is room left. |
| FileListing.ListFiles | internal/adomniacli/mcp_files.go:158-207 | The answer is the first entries of the complete listing; truncated means that the list is full, so a list that is not truncated is complete. |
| FileListing.ListedIffVisible | internal/adomniacli/mcp_files.go:171-205 | The complete listing holds exactly the files and folders within the depth that no ignored or unreadable folder hides. |
| FileListing.ListedOnce | internal/adomniacli/mcp_files.go:185-196 | No path is listed twice. |
| FileListing.SortOrders | internal/adomniacli/mcp_files.go:179-184 | Children are listed folders first, then by name, and none is lost. |
| FileListing.OrderIsUnique | internal/adomniacli/mcp_files.go:179-184 | With distinct names there is only one such order, so any way of sorting finds it. |
| FileListing.DiskOrderDoesNotMatter | internal/adomniacli/mcp_files.go:175-184 | The order in which the file system returns a folder's children does not show in the listing. |

## Left out

- Wails bindings, the frontend, the desktop shell, bootstrap, policy and lookup code: thin wrappers.
- Network clients, the HTTP execution, the WebSocket, subprocesses and JSON-RPC: their answers are parameters or steps of a state machine.
- IEEE floating point: schedules, APDEX and rates are reals, and `math.Round` is exact half-away-from-zero rounding.
- Clocks and sleeping: ramp-up and think-time delays, the 25 ms poll and step delays become arbitrary interleavings; whether a finished run is measured is a parameter of its step.
- StressWorkers.EveryRunTerminates: bounds the runs of iterations mode only, because duration and staged modes end by the clock.
- CollectionSync.SyncResult: takes the short hash as injective, as do the other lemmas on generated ids.
- Environments.IdsCanRepeat: takes the derived id to have no space at its ends, as a hexadecimal hash has.
- Dataset rows and built-in variables of an iteration (stress.go:338-353): they only feed the parameters of the walk.
- Scripts, assertions, expected status, conditions, JSON paths and the error fingerprint of the stress runner: parameters of `StressFlow.Env` and `StressStats.Messages`.
- The settings `stopOnFailure` and `failOnHttpError`: the program decodes them and never reads them.
- Reports of a stress run in text, JSON and JUnit form.
- SHA-256, HMAC, key derivation and the rest of the AWS signature: no property of them is used.
- Hashes in collection and environment ids: a parameter, injective only where a lemma says so.
- Regular expressions: which ranges match and which names look secret are parameters; that the secret-name pattern does not match "key" is a requirement of the lemmas that need it.
- Redaction as a whole done twice: a mask can create a new word boundary and with it a new match, so only masking the same ranges again is shown to change nothing.
- Case folding and upper-casing of Unicode text: parameters; the ignored folder names are folded as far as they can match.
- Strings that are not valid UTF-8: outside the byte-level modules a string is a sequence of code points; length limits count its UTF-8 bytes.
- Files of a collection and of its environments: slugs, file order on reading, partly written folders; a save is one assignment.
- Inherited auth, headers, variables and scripts in request resolution: the editor looks only at id, method and URL.
- Spare capacity of slices: `append` makes the list longer in its own block, so two slices of one array that overlap are not modelled.
- Parsing the output of `go list`, and path cleaning: the packages and the path functions are parameters.
- Symbolic links and path checks of workspace folders; paths are lists of names.
- The predicate that says which windows are alive is fixed during one call.
- Console, debugger and network notifications of the browser session.
