# warmrunners: a verified model

warmrunners keeps self-hosted CI runners warm. It predicts which workflow jobs are about to
start, samples recent activity, listens to webhooks, folds these signals with a schedule, and
patches one number, the warm floor, on a runner backend. This project models that logic in Dafny
and proves what it computes, over every input, every order in which Go may visit a map, and every
run.

The modules follow the program:

* `Arithmetic`, `Bags`: int32 truncation, small arithmetic and set-size facts, counting over bags.
* `Labels`, `Grouping`, `Tallies`: label-set keys (sorted, unique, comma-joined), tallies keyed by
  them, and the attribution of a tally to a policy's labels. What the string arithmetic counts is
  stated for every label list, and compared with counting jobs directly.
* `Workflows`, `NeedsGraph`, `CallChains`, `RunListing`, `Frontier`: the predictor. `NeedsGraph` gives the walk
  over reusable workflows a denotation without shared state, which the imperative walk refines
  for every iteration order; `CallChains` reads the same denotation as a sum over call chains;
  `Frontier` says when the imminent frontier makes progress.
* `MatrixExpansion`: the cross product with exclude and include.
* `Sampler`: the activity sampler.
* `Recency`: bounded newest-first lists, characterised by their history; used by `ReplayGuards`
  (the webhook replay guard) and `WorkflowCache` (the LRU of the workflow fetcher).
* `Webhook`: receiver, dispatcher and event feed against the history of arrivals.
* `Fetcher`, `FetchInterleavings`: conditional requests and retries of the three GitHub clients, and which body a
  caller gets, alone or among concurrent callers.
* `Schedule`, `FloorController`: the decision and the reconcile step, and safety over whole runs.
* `Demand`, `Blocks`, `Sse`, `Metrics`: the paginated demand count, the server-sent-events reader, the
  per-label-set gauges and the active-window counter.

Where the source relies on something outside it, that enters as a parameter: decoded runs,
workflows, matrices and payloads, server replies, clock readings, and whether a read, patch or
status write succeeds. Loops over Go maps pick keys with `:|`, so every contract holds for every
iteration order. Durations and instants are integers (nanoseconds); int32 sums truncate through
`ToInt32`; Go's saturating time subtraction is written out where a cooldown is tested.

## Where the code differs from its comments

The model follows the code in each case.

* A replay-guard hit does not refresh its entry: eviction is by acceptance order. A size below 1
  still holds one entry.
* A 403 without `Retry-After` is documented as terminal but is requested four times, because
  `break` leaves only the `switch` (`ForbiddenIsRetried`); in the demand poller the same holds of
  any 429 or 403 without rate-limit headers.
* The comments on Reconcile say the floor is never lowered inside the cooldown. It is, in three
  ways whose exact conditions are `LoweredInCooldownIff` for one reconcile and `LoweredAgainIff`
  for a run: when the floor stands above the cap; after a failed floor read, which is taken as 0
  (`FailedReadBreaksCooldown`); and after a lost status write (`LostStampBreaksCooldown`).
* A 304 is answered from a cache that another caller may have changed meanwhile. That is harmless
  exactly for keys whose tagged content never changes (`AlwaysCurrentIff`), as for files at a fixed
  commit.
* A matrix with only `include` entries expands to one combination, not one per entry
  (`IncludeOnlyIsOneCombination`).
* Labels with commas are not kept apart by the key (`CommaCollision`, `KeyRoundTripIff`, `CountsDirectlyIff`).
* The stream reader drops leading empty data lines, and with them events whose data is empty
  (`RoundTripIff`).

## Model

| member | source | states |
|---|---|---|
| Labels.ComputeLabelSetKey | internal/predictor/predictor.go:73-88 | the dedupe, sort and join loops give the key, for every label list |
| Labels.SplitKeyMeaning | internal/controller/warmrunnerpolicy_controller.go:487-492 | what the controller reads back from a key, for every label list: the comma-separated pieces of the labels, or nothing when all are empty |
| Labels.KeyRoundTripIff | internal/controller/warmrunnerpolicy_controller.go:485-492 | decoding inverts encoding as sets iff no label has a comma and the list is not just the empty label |
| Labels.SameKeyIff | internal/predictor/predictor.go:67-88 | any two lists share a key iff their sorted members, taken apart at commas, are the same pieces in the same order, or both are encoded as empty |
| Labels.SameKeyCommaFree | internal/predictor/predictor.go:67-88 | comma-free lists share a key iff equal as sets, except that [] and [""] collide |
| Labels.CommaCollision | internal/predictor/predictor.go:86-87 | a concrete collision of two different label sets |
| Labels.LabelsSuperset | internal/controller/warmrunnerpolicy_controller.go:497-511 | true iff every wanted label is present |
| Grouping.CreditPlus | internal/predictor/workflow_needs_graph.go:297-298 | adding under keys is additive, so order and grouping of jobs do not matter |
| Grouping.GroupedTotal | internal/controller/warmrunnerpolicy_controller.go:457-467 | grouping by key and summing the keys that pass a test counts each element once, by its own key |
| Tallies.KeyMatchesMeaning | internal/controller/warmrunnerpolicy_controller.go:461-464 | exactly which label lists the key test counts, commas and empty labels included |
| Tallies.AttributionIsDirectCount | internal/controller/warmrunnerpolicy_controller.go:457-467 | on labels the key reads back as they are, the string-keyed total is the number of jobs whose labels include all wanted ones |
| Tallies.CountsDirectlyIff | internal/controller/warmrunnerpolicy_controller.go:457-467 | the string-keyed total is the direct count for every policy iff no label has a comma and no list is just the empty label; miscounts never cancel out |
| Tallies.Contribution | internal/controller/warmrunnerpolicy_controller.go:457-467 | the summing loop gives the int32 truncation of the matching total, for every map order |
| Tallies.CountJobs | internal/predictor/workflow_needs_graph.go:288-298 | one increment of the tally is the credit of that many jobs |
| Tallies.PolicyContribution | internal/controller/warmrunnerpolicy_controller.go:457-511 | end to end: the contribution is the truncated number of jobs whose key matches, and below 2^31 plain-labelled jobs the direct count |
| NeedsGraph.Walker.WalkWorkflow | internal/predictor/workflow_needs_graph.go:236-300 | for every job order the tally gains exactly the denotation, the hooks the same multiset, and `visited` is left as found; `visited` has size depth at every call |
| NeedsGraph.Walker.WalkJobs | internal/predictor/workflow_needs_graph.go:245-256 | the job loop sums the contributions of exactly the imminent jobs |
| NeedsGraph.Walker.WalkJob | internal/predictor/workflow_needs_graph.go:258-298 | one imminent job adds its denotation, by branch; a literal job adds max(1, combinations) under the key of its group and labels |
| NeedsGraph.FlatStarts | internal/predictor/workflow_needs_graph.go:245-298 | for a workflow that calls no other, the starts under each label list are the sum, over the unmaterialized jobs whose needs are materialized, of max(1, combinations) for literal jobs with those labels, group in front |
| NeedsGraph.Walker.RecurseLocal | internal/predictor/workflow_needs_graph.go:305-348 | a local call adds its denotation: depth cap, cycle, failed fetch, unparsable file or the callee, and restores `visited` |
| NeedsGraph.Walker.LoadAndWalk | internal/predictor/workflow_needs_graph.go:328-347 | fetch, parse and walk of a callee add exactly its denotation |
| NeedsGraph.Context.VisitKeyInjective | internal/predictor/workflow_needs_graph.go:320 | within one walk the cycle key identifies the path |
| NeedsGraph.FetchBound | internal/predictor/workflow_needs_graph.go:305-348 | on any call graph with at most b local calls per workflow there are at most b + b^2 + ... + b^10 nested fetches |
| NeedsGraph.Walker.ContributeRun | internal/predictor/workflow_needs_graph.go:199-223 | a run adds the denotation of its workflow against its own materialized jobs; each per-run failure drops that run only |
| NeedsGraph.Walker.ContributeRuns | internal/predictor/workflow_needs_graph.go:154-157 | a poll adds the sum over its runs |
| NeedsGraph.PollStarts | internal/predictor/workflow_needs_graph.go:154-157 | a poll starts, under each label list, what its runs start, each once |
| NeedsGraph.Predict | internal/predictor/workflow_needs_graph.go:143-158 | the prediction is the tally of the denotation of the capped, de-duplicated runs |
| NeedsGraph.PredictFor | internal/controller/warmrunnerpolicy_controller.go:452-467 | the policy's predicted contribution counts the jobs about to start, from runs to int32 |
| NeedsGraph.AllMaterialized | internal/predictor/workflow_needs_graph.go:457-464 | true iff every need is materialized |
| CallChains.ChainsMeaning | internal/predictor/workflow_needs_graph.go:236-348 | the denotation equals the sum, over all chains of local calls, of what stands at each chain's end |
| CallChains.StartsOverChains | internal/predictor/workflow_needs_graph.go:236-348 | on any call graph the starts under each label list are the sum, over all call chains, of what the last job asks for by its own fields |
| CallChains.HooksOverChains | internal/predictor/workflow_needs_graph.go:236-348 | each hook is called once for each chain whose last job, depth, callers and files call for it |
| CallChains.ChainIffRoute | internal/predictor/workflow_needs_graph.go:245-348 | the chains are exactly the routes through ready jobs and existing files, by the job's fields: at most ten calls, no path twice, `./` dropped; each chain has one route |
| CallChains.RunStarts | internal/predictor/workflow_needs_graph.go:199-223 | a run starts the sum over the chains of its workflow, or nothing if its jobs, file or parse fail |
| CallChains.ChainShape | internal/predictor/workflow_needs_graph.go:313-326 | a chain makes at most ten calls and never calls a path twice |
| RunListing.ListActiveRuns | internal/predictor/workflow_needs_graph.go:166-193 | first run per ID over all listings, capped; a failed listing fails the poll unless the cap was reached before it |
| RunListing.FirstByIdDistinct | internal/predictor/workflow_needs_graph.go:181-186 | the listed runs have distinct IDs and no ID is lost |
| RunListing.FirstByIdPositions | internal/predictor/workflow_needs_graph.go:180-187 | entry i is the i-th run whose ID has not come before |
| RunListing.PollFailsIff | internal/predictor/workflow_needs_graph.go:169-179 | a poll fails iff a listing fails before which fewer than `cap` distinct IDs were listed |
| RunListing.PollSize | internal/predictor/workflow_needs_graph.go:180-193 | otherwise it has as many runs as distinct IDs before the first failure, up to the cap, no ID twice |
| Frontier.ProgressIff | internal/predictor/workflow_needs_graph.go:245-256 | some job is imminent whenever any is unmaterialized iff `needs` is acyclic and names only existing jobs |
| Frontier.DeadlockHasCycle | internal/predictor/workflow_needs_graph.go:457-464 | jobs that all wait for one another contain a `needs` cycle |
| Frontier.FrontiersCoverAll | internal/predictor/workflow_needs_graph.go:245-256 | materializing each frontier in turn covers all jobs in at most as many rounds as jobs, no job twice |
| MatrixExpansion.CrossProduct | internal/predictor/workflow/parse.go:272-287 | the nested loops build the cross product of the axes |
| MatrixExpansion.CrossIsNumbered | internal/predictor/workflow/parse.go:272-287 | its length is the product of the axis lengths and entry i is the choice whose mixed-radix digits are those of i |
| MatrixExpansion.DigitsNumber | internal/predictor/workflow/parse.go:272-287 | each position below the product is a choice with that number |
| MatrixExpansion.NumberDigits | internal/predictor/workflow/parse.go:272-287 | each choice of one value per axis has exactly one position |
| MatrixExpansion.ChosenValues | internal/predictor/workflow/parse.go:278-283 | a combination's keys are exactly the axis names, each with its chosen value |
| MatrixExpansion.ApplyExclude | internal/predictor/workflow/parse.go:331-340 | keeps exactly the combinations no entry fits, in order |
| MatrixExpansion.KeptIff | internal/predictor/workflow/parse.go:331-366 | a combination is kept iff every literal entry assigns some non-nil value that it does not have |
| MatrixExpansion.KeptCounts | internal/predictor/workflow/parse.go:331-340 | every combination keeps its multiplicity or disappears altogether |
| MatrixExpansion.KeptPositions | internal/predictor/workflow/parse.go:331-340 | entry i of what is kept is the i-th combination no entry fits |
| MatrixExpansion.MatchesAnyCombination | internal/predictor/workflow/parse.go:342-352 | true iff some literal entry fits |
| MatrixExpansion.MatchesCombination | internal/predictor/workflow/parse.go:354-366 | true iff the combination has every non-nil assignment's key with its value, in any order |
| MatrixExpansion.CombinationMatchesOnAxes | internal/predictor/workflow/parse.go:419-434 | true iff it does so on the axes |
| MatrixExpansion.IncludeEntry | internal/predictor/workflow/parse.go:388-411 | an entry is merged into every combination it fits or else appended |
| MatrixExpansion.ApplyInclude | internal/predictor/workflow/parse.go:374-414 | the include fold |
| MatrixExpansion.IncludeEffect | internal/predictor/workflow/parse.go:374-414 | an earlier combination keeps its axis values and ends with exactly the entries that fit them laid over it in order |
| MatrixExpansion.OverlaidAt | internal/predictor/workflow/parse.go:388-411 | key by key, the last entry that agrees on the axes and assigns the key decides it, and otherwise the combination itself |
| MatrixExpansion.AxisValuesFixed | internal/predictor/workflow/parse.go:389-411 | from the moment any combination is there, appended ones too, no later entry changes its axis values |
| MatrixExpansion.IncludeMeaning | internal/predictor/workflow/parse.go:374-414 | the whole result: an entry is appended iff it fits, on axis values alone, neither a combination nor an entry appended before; each site ends with exactly the later entries that fit it laid over it |
| MatrixExpansion.IncludeOnlyIsOneCombination | internal/predictor/workflow/parse.go:389-400 | with no axes all entries merge, in order, into one combination |
| MatrixExpansion.CollectAxes | internal/predictor/workflow/parse.go:254-270 | whatever order the rows come in, the axes are the literal rows sorted by name; an expression row is reported |
| MatrixExpansion.AxesMeaning | internal/predictor/workflow/parse.go:254-270 | the axes are exactly the literal rows with their values, in increasing order of names |
| MatrixExpansion.MapMatrix | internal/predictor/workflow/parse.go:243-309 | the result is a function of the syntax, independent of every map order; dynamic, and then empty, iff the matrix, a row, the excludes or the includes are an expression |
| MatrixExpansion.ExpansionEntry | internal/predictor/workflow/parse.go:243-309 | the expansion begins with the choices no exclude fits, in numbering order, each with exactly the includes that fit it laid over it |
| Sampler.ActivitySampler.Sample | internal/activity/workflow_runs_sampler.go:160-195 | the tally is the fan-out of the first `cap` runs that pass the filters, the hooks are theirs and the filters'; filtered runs use up the cap; a failed listing fails the sample without a hook |
| Sampler.ActivitySampler.ContributeRun | internal/activity/workflow_runs_sampler.go:178-191 | one run adds its fan-out, or exactly the hook of the filter that stops it, bots first |
| Sampler.ActivitySampler.ContributeJobs | internal/activity/workflow_runs_sampler.go:271-303 | every job of the workflow adds its fan-out, in any order |
| Sampler.SampledStarts | internal/activity/workflow_runs_sampler.go:175-303 | under each label list a run starts what all jobs of its workflow ask for by their fields, iff it is no bot's, its event is one of the six, and its file parses |
| Sampler.SampleStarts | internal/activity/workflow_runs_sampler.go:172-193 | a sample starts what its first `cap` runs start |
| Sampler.FanOutHooks | internal/activity/workflow_runs_sampler.go:271-294 | each skipped job is reported once, a local call as a remote one |
| Sampler.SampleFor | internal/controller/warmrunnerpolicy_controller.go:580-595 | the activity contribution counts the sampled jobs, or fails with the listing |
| Recency.BoundedMembership | internal/webhook/replay.go:63-72 | a key is in a list bounded by n iff it was inserted and fewer than n distinct other keys were inserted since, with the value of its last insertion |
| ReplayGuards.ReplayGuard.Seen | internal/webhook/replay.go:47-74 | true iff the ID's last acceptance is at most ttl old and fewer than `size` distinct other IDs were accepted since; list and map hold the same IDs, without duplicates, at most `size` |
| ReplayGuards.ReplayGuard.Insert | internal/webhook/replay.go:58-73 | an acceptance drops an expired entry of the ID, makes room and pushes, keeping list and map equal to the newest accepted IDs |
| ReplayGuards.RememberedIff | internal/webhook/replay.go:53-57 | the guard's own test agrees with the history |
| ReplayGuards.SeenAll | internal/webhook/replay.go:47-74 | any run of calls is answered from the history, call by call |
| ReplayGuards.AcceptedOnce | internal/webhook/replay.go:43-46 | within one ttl and at most `size` distinct IDs, each ID is accepted exactly once, at its first call |
| Webhook.Feed.Snapshot | internal/activity/event_feed.go:113-127 | a copy of the counts and the last event time |
| Webhook.Feed.Dispatch | internal/webhook/dispatcher.go:64-88 | in the payload's fields: one more under the key of a queued job with labels and repository, nothing else changed; the event time for that or a push; an error iff the body does not decode; counts and times stay those of the accepted deliveries |
| Webhook.Receiver.ServeHttp | internal/webhook/receiver.go:44-112 | each status iff, in the request's own fields, all earlier checks pass and its own fails; 401 iff only the signature is bad; 200 or 500 iff everything holds, by replay and decoding; otherwise guard and feed are untouched |
| Webhook.Receiver.HandleFrame | internal/webhook/receiver.go:125-148 | the same for a tunnelled frame, without signature check; a refused frame leaves guard and feed untouched |
| Webhook.Receiver.GuardAndDispatch | internal/webhook/receiver.go:98-105 | the guard decides from the history; only accepted deliveries reach the feed |
| Webhook.AcceptedGenuine | internal/webhook/receiver.go:54-105 | over any history, every accepted delivery came by the tunnel or by a post whose signature was verified |
| Webhook.ExactlyOnce | internal/webhook/receiver.go:88-148 | within one ttl and at most `size` IDs, the accepted jobs for (repo, key) are as many as the distinct IDs whose first delivery to reach the guard announces such a job |
| Webhook.FeedCountsOnce | internal/activity/event_feed.go:97-108 | under the same bounds the feed's own counter for (repo, key) is that number of IDs |
| Webhook.CountsNeverFall | internal/activity/event_feed.go:106 | counters only grow, whatever arrives later |
| Webhook.FeedContribution | internal/controller/warmrunnerpolicy_controller.go:621-662 | no signal iff the repository has no recorded event at most one active window old; otherwise the accepted jobs of the whole history and the end of that window |
| WorkflowCache.Cache.Store | internal/predictor/cache.go:306-327 | a stored key is at the front, the others in order behind it, trimmed to the capacity; list and map hold what the history says |
| WorkflowCache.Cache.MoveToFront | internal/predictor/cache.go:309-313 | a cached key becomes the most recently used, with its new version |
| WorkflowCache.Cache.PushFront | internal/predictor/cache.go:315-326 | a new key is added and only the least recently used keys beyond the capacity go |
| WorkflowCache.Cache.TouchAndGet | internal/predictor/cache.go:292-301 | a hit moves its entry to the front and keeps the others in order, a miss changes nothing; both as the history says |
| WorkflowCache.Cache.CachedETag | internal/predictor/cache.go:281-288 | reading an ETag is no use |
| WorkflowCache.Cache.Evict | internal/predictor/cache.go:318-326 | trimming keeps the front `capacity` entries in list and map |
| WorkflowCache.ContentsMeaning | internal/predictor/cache.go:281-327 | a key is cached iff fewer than `capacity` distinct other keys are listed as used since its last use, with the ETag and body last stored |
| WorkflowCache.CachedIff | internal/predictor/cache.go:281-327 | over the operations: a key is cached iff a store or a hit used it and fewer than `capacity` distinct other keys were stored or hit since |
| WorkflowCache.HitKeeps | internal/predictor/cache.go:292-301 | a hit keeps its key until `capacity` distinct other keys are stored or touched |
| WorkflowCache.UnusedIsGone | internal/predictor/cache.go:318-326 | a key neither stored nor hit while `capacity` distinct others are stored is gone |
| Fetcher.Attempt | internal/predictor/cache.go:176-267 | one pass of the loop stops iff its reply is final, returns exactly what that reply settles, and changes the cache only on a readable 200 |
| Fetcher.Fetch | internal/predictor/cache.go:159-273 | requests go up to the first final reply, at most one more than the retries; result and cache are settled by the last reply alone |
| Fetcher.RequestsMeaning | internal/predictor/cache.go:190-267 | every reply but the last is a network error, a 5xx, 403 or 429 that may pass, and the last is one only if no retry is left |
| Fetcher.GoodAnswerReached | internal/predictor/cache.go:176-213 | a good answer is reached through any such failures while retries are left, and its body returned |
| Fetcher.SettleMeaning | internal/predictor/cache.go:204-229 | a body iff a readable 200 or a 304 with something held, and then that one; not found iff 404 |
| Fetcher.ForbiddenIsRetried | internal/predictor/cache.go:230-237 | a hard 403 is requested until the retries run out, in all four times, by the fetcher and the poller alike |
| Fetcher.SettleIsCurrent | internal/predictor/cache.go:204-224 | under the entity-tag law a 200 or 304 body is the origin's at the last reply, for all three clients |
| Fetcher.CacheStaysCoherent | internal/predictor/cache.go:204-224 | whatever an exchange leaves in the cache was the origin's at some instant |
| Fetcher.StoredIsGivenBack | internal/predictor/cache.go:204-224 | what a readable 200 brought is what the next 304 gives back |
| Fetcher.FetchRun | internal/predictor/cache.go:159-327 | in any sequential run every returned body is the origin's at its last reply |
| Fetcher.CachedGet | internal/predictor/workflow_needs_graph.go:380-441 | one request; result, body and table as the reply settles them, every readable 200 being stored |
| Fetcher.TableGivesBack | internal/demand/github_poller.go:320-331 | the same for the two tables; the poller keeps no untagged reply |
| Fetcher.DoWithRetry | internal/demand/github_poller.go:127-218 | requests go up to the first final reply; gives the last reply iff it is a readable 200 or 304 |
| Fetcher.PollerGet | internal/demand/github_poller.go:287-332 | a value is the origin's at the last reply; a body that does not decode is an error; only decoded and tagged replies are stored |
| FetchInterleavings.NextKeepsInv | internal/predictor/cache.go:281-327 | every step of every caller keeps cached versions genuine and each caller's answer that of its instant |
| FetchInterleavings.ConcurrentBodies | internal/predictor/cache.go:159-327 | in every reachable state a returned body was the origin's for that key at or before the return, and at the answer itself if that was untagged |
| FetchInterleavings.AlwaysCurrentIff | internal/predictor/cache.go:159-327 | in every interleaving every returned body is the origin's at the instant it answered, iff a key that is ever served with an entity tag never changes its body |
| FetchInterleavings.StaleReachable | internal/predictor/cache.go:214-224 | for any tagged instant t and any instant u, before or after, a run from the empty state answers a caller at t and hands it the body of u |
| FetchInterleavings.RaceReturnsLaterBody | internal/predictor/cache.go:214-224 | an instance: a run from the empty state, under the entity-tag law, in which a 304 caller gets a body the origin did not hold when it answered |
| Schedule.ScheduleBase | internal/scheduler/heuristic.go:42-79 | the largest base of a window whose day is listed and whose half-open minutes contain the local time, or zero |
| FloorController.Decide | internal/scheduler/heuristic.go:19-35 | clamp to min and max, then hold the current floor inside the cooldown |
| FloorController.Fold | internal/controller/warmrunnerpolicy_controller.go:255-312 | the decision is min(floor.max, known backend max, X) with X the strongest signal, raised to the current floor inside the cooldown, and lies within the bounds of LandedFloor |
| FloorController.LandedFloor | internal/controller/warmrunnerpolicy_controller.go:249-328 | a landed floor respects both caps, is one of them or covers base, floor.min, predicted, activity and, in the cooldown, the current floor, and is never more than one of these asks for |
| FloorController.FloorUntouched | internal/controller/warmrunnerpolicy_controller.go:314-328 | without source, demand or landing patch, or in a dry run, the floor stays |
| FloorController.DesiredReported | internal/controller/warmrunnerpolicy_controller.go:340-348 | the reported desired floor is within the same bounds for every outcome |
| FloorController.BoundsUnique | internal/controller/warmrunnerpolicy_controller.go:280-312 | only one number is within these bounds |
| FloorController.CooldownTest | internal/scheduler/heuristic.go:28-33 | the 64-bit cooldown test is a comparison of instants, for every duration |
| FloorController.Controller.Reconcile | internal/controller/warmrunnerpolicy_controller.go:217-389 | one reconcile is the closed-form step on floor and stored status, for every outcome |
| FloorController.GoalMonotone | internal/controller/warmrunnerpolicy_controller.go:280-312 | the goal is monotone in every signal, the current floor and the caps |
| FloorController.LoweredInCooldownIff | internal/controller/warmrunnerpolicy_controller.go:249-263 | inside the cooldown the floor is lowered iff a patch lands and the floor read stands above the cap, or the read failed and the goal found from zero is another value below the real floor |
| FloorController.StampedIff | internal/controller/warmrunnerpolicy_controller.go:314-328 | a landed decrease is stamped iff the status is stored and the floor was read or the goal is negative |
| FloorController.AppliedIsRealIff | internal/controller/warmrunnerpolicy_controller.go:340-348 | AppliedFloor is the backend's floor after every outcome iff the floor was read, was zero or a patch landed |
| FloorController.FailedReadBreaksCooldown | internal/controller/warmrunnerpolicy_controller.go:249 | an instance: an unstamped decrease inside the cooldown after a failed read |
| FloorController.NeverAboveCap | internal/controller/warmrunnerpolicy_controller.go:303-312 | over any run that starts at or below the cap the floor never exceeds it |
| FloorController.LoweredAgainIff | internal/controller/warmrunnerpolicy_controller.go:249-328 | over any run, whatever fails in it, exactly when a second decrease lands within the cooldown of the first: above the cap, after a lost stamp whose predecessor has run out, or by a failed read |
| FloorController.CooldownSafety | internal/controller/warmrunnerpolicy_controller.go:249-328 | over any run with successful reads between two decreases, policies and caps changing at will: the second is decided at least one cooldown after the first's stamp, less the precision of stored times, or the floor stood above the cap, or the first's status was lost and the older stamp had run out |
| FloorController.FixedCapSafety | internal/controller/warmrunnerpolicy_controller.go:249-328 | with a fixed cap, a start at or below it, and the reads between and the first's status write successful, a landed decrease is decided at least one cooldown after the previous one's stamp, up to that precision |
| FloorController.LostStampBreaksCooldown | internal/controller/warmrunnerpolicy_controller.go:364-386 | an instance: a run with two decreases within one cooldown after a lost status write |
| FloorController.Converges | internal/controller/warmrunnerpolicy_controller.go:314-328 | with constant signals and no failures the first reconcile outside the cooldown reaches min(cap, strongest signal) and no later one patches |
| FloorController.HeldInCooldown | internal/scheduler/heuristic.go:28-33 | until then a floor between target and cap is held |
| Demand.ListRunIds | internal/demand/github_poller.go:337-355 | against a fixed snapshot, all n IDs in order after n/100 + 1 pages; an error iff one of these pages fails |
| Demand.CountRunJobs | internal/demand/github_poller.go:359-384 | queued and in-progress jobs whose labels include all wanted ones, as int32 |
| Demand.CurrentDemand | internal/demand/github_poller.go:404-433 | both counts over the runs of both listings; an error iff a page that is needed fails |
| Demand.DemandMeaning | internal/demand/github_poller.go:359-433 | each count is the number of (listed run, job) pairs in that status whose labels include all wanted ones |
| Sse.ReadSse | internal/webhook/tunnel.go:177-220 | on every input whatever, exactly the events of the blocks that an empty line closes: the last name given and the data values joined, leading empty ones dropped, none when the data is empty |
| Sse.PassedOverIgnored | internal/webhook/tunnel.go:200-217 | comments, lines without a colon and unknown fields are invisible wherever they stand: the same events and the same open block |
| Sse.LinesCrLf | internal/webhook/tunnel.go:177-190 | lines ended by carriage return and newline are read as those ended by newline |
| Sse.LinesUnended | internal/webhook/tunnel.go:177-190 | a last line counts without a newline |
| Sse.StreamReceives | internal/webhook/tunnel.go:177-220 | for any serialised events with passed-over lines anywhere, exactly which events are dispatched, in order |
| Sse.RoundTripIff | internal/webhook/tunnel.go:191-217 | the events come back unchanged iff each has a non-empty first data line |
| Metrics.LabelSetGauge.Emit | internal/controller/warmrunnerpolicy_controller.go:699-740 | after any sequence of reports the live samples of each policy are exactly its last report |
| Metrics.LastReportIs | internal/controller/warmrunnerpolicy_controller.go:699-740 | that last report is the map of the last emission that names the policy, and nothing of earlier ones |
| Metrics.WindowMonitor.Observe | internal/controller/warmrunnerpolicy_controller.go:670-694 | each repository's expiry counter is the number of active-to-inactive transitions seen |
| Metrics.ExpiresIff | internal/controller/warmrunnerpolicy_controller.go:670-694 | a transition is counted iff an observation finds no later end of activity and the previous one of that name did |

## Left out

- HTTP, JSON and YAML decoding and the actionlint syntax tree: decoded values are inputs.
- The Kubernetes client, the ARC and GARM adapters and Secret lookup: the backend is one register whose read and patch may fail without effect.
- HMAC verification: whether a signature is valid is an input of the receiver.
- Time zones and window parsing: each window's local weekday and minutes are inputs.
- Tunnel dialling, goroutines, mutexes, timers, back-off delays and jitter: only the order of locked steps is modelled, for the fetcher.
- The order and truncation of the label sets shown in the status (top eight): it would only add easy members.
- rejectMultiDoc, classifyUses, resolveMatrixRunsOn and mapRunsOn: short scans and branch ladders; their results are fields of the workflow.
- GitHubApp reconciliation, conditions, Prometheus registration, bot-actor classification and cmd/main.go: plumbing or easy members.
- ReplayGuards.ReplayGuard.Seen: time subtraction is exact; Go's saturates at 292 years, which matters only for the largest ttl.
- ReplayGuards.AcceptedOnce: the order of acceptances is the order in which the guard's lock is taken.
- Webhook.Feed.Dispatch: guard and feed read one clock value per delivery, where the source reads the clock once in each.
- FloorController.CooldownSafety: leaves out the least 64-bit duration as a cooldown; assumes a stored status is what the next reconcile reads.
- Demand.ListRunIds: the server's listing does not change between pages.
- Sse.ReadSse: lines of one mebibyte or more, which end the source's scan with an error, and cancellation are not modelled.
- MatrixExpansion.IncludeEntry: the source writes into the slice it was given; here the slice is a sequence value, so sharing with the caller is not captured.
- NeedsGraph.Walker.WalkWorkflow: the tally and `visited` are fields of the walker where the source passes the same maps down as arguments.
- Fetcher.Fetch: waits between attempts are not timed; a cancelled wait is a flag of the reply before it.
- Fetcher.PollerGet: the error for a cached value of another type under the same URL, which no caller provokes, is not modelled; the table is a value, so sharing between callers is not captured.
- The choice in computeActivity between the feed's signal and, when there is none, the sampler's: one branch.
