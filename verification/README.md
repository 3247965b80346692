# OpenPost, modelled in Dafny

OpenPost schedules social media posts. This project models five of its cores and proves what they are
relied on for:

- **The publish queue.** Workers claim job rows with one UPDATE, requeue rows locked for 15 minutes or
  more, retry with doubling back-off and finish with writes keyed by job id, while API transactions
  create, replace and delete the same rows (`Backoff`, `JobQueue`, `QueueProtocol`, `QueueSafety`,
  `QueueAccounting`, `QueueEffects`, `SchedulingHandlers`).
- **References between posts, destinations, variants and media**, over every run of the handlers that
  write them and of the media cleanup (`Ids`, `Tables`, `RowFacts`, `References`, `Destinations`,
  `ScheduledPosts`, `MediaDeletion`, `Acceptance`, `Handlers`).
- **The slot allocator**, which looks for the next free weekly slot in 30 days (`SlotSearch`,
  `SlotBooking`).
- **Two text formats**: Content-Length framing on stdio (`FrameFormat`, `HeaderTexts`, `ForeignFrames`,
  `StdioProxy`) and the `---` thread format (`ThreadMarkdown`, `ThreadRoundTrip`, `ThreadTexts`).
- **Smaller algorithms with a law of their own**: Bluesky thread roots (`BlueskyThread`), config merging
  (`KeyedMerge`, `AppConfigs`, `AppKeys`), account selection (`AccountPicker`, `AccountMatching`) and X upload
  segments (`XUpload`).

`dafny verify dfyconfig.toml` checks everything.

## How the model is built

Code that changes rows, readers or maps step by step is a method, on a class where the source has an
object, and is proved equal to a specification function; the laws are lemmas about those functions. In
`QueueProtocol` every SQL statement, every transaction and every crash is one step of a state machine, and
the results speak about all runs and all interleavings. `SchedulingHandlers` ties the transactions of the
handlers to these steps, and `QueueEffects` says what each step does to the rows. In `References` and `Destinations` a handler is one step, and the runs are all
finite sequences of them.

What the model takes for granted:

- One clock, in nanoseconds, is shared by the database and all workers and never runs backwards. The time
  of a failure lies between the claim and the final write.
- A statement or transaction is atomic, as with SQLite behind one connection
  (`backend/internal/database/database.go:40-42`).
- The publisher is an environment step: it may at any time move a post to publishing, published or failed,
  and inserts no jobs. The handlers of `posts.go` are not part of this model.
- Row ids are fresh UUIDs. Every job row has `max_attempts >= 1` (the column default is 3, token refreshes
  use 5).
- A final write that fails leaves things as a crash does.
- The location of a workspace is a fixed offset from UTC in whole minutes; the `UTC*` columns of a schedule
  are read as local time, as the code does. Only the time that `sort.Slice` puts first is determined, not
  which of two schedules with that time comes back.
- JSON marshalling and unmarshalling are inverse; id lists stored as JSON are sequences.

## Where the code falls short of what one would expect

For each of these the exact condition under which the property does hold is proved.

- The back-off product overflows an int64 from 30 allowed attempts on, and run_at then moves back
  (`Backoff.DelaysExactIff`, `QueueSafety.RetryIsLaterIff`).
- With two workers, a handler that runs longer than 15 minutes puts a job in two hands, and a completed job
  can go back to pending (`QueueSafety.SlowWorkerBreaksExclusion`). Exactly the runs in which a requeue meets
  such a worker are affected (`QueueSafety.ExclusionIff`).
- `create_draft` stores account ids as given. When one is listed twice, the destination check of
  `set_post_renditions`, which counts rows, accepts an account that is no destination
  (`Acceptance.RepeatedAccountRun`, with literal requests; `Destinations.DestinationCheckExactIff`,
  `Destinations.TargetsKeptIff`, `Destinations.CreateDraftSafeIff`).
- A frame cut inside its header, or right behind it, looks like a clean end of input
  (`FrameFormat.NoPrefixIsAFrame`).
- A thread with CRLF line ends does not survive the round trip unchanged (`ThreadRoundTrip.RoundTripIff`).
- Normalising a config with an instance URL such as `"a /"` twice is not the same as once
  (`AppConfigs.UnstableUrlBreaksTwoSteps`, `AppConfigs.StableIff`), and then merging in two steps need not be
  merging in one. It is exactly when everything that the first step keeps is stable; an unstable entry that
  is overridden does no harm (`AppConfigs.MergeInTwoStepsIff`).
- A provider spelled `mastodon:<url>` has the merge key of the Mastodon instance with this URL
  (`AppKeys.KeysEqualIff`); configs of providers without a colon are told apart (`AppKeys.KeyIsSameApp`).
- From the third post of a Bluesky thread on, the root reference that is sent carries a `_root` key with
  the value null (`BlueskyThread.ReplyReferences`).

## Model

| member | source | states |
|---|---|---|
| `Backoff.DelaysExactIff` | backend/internal/queue/worker.go:137-146 | no back-off that a job with this attempt limit can go through overflows the int64 nanosecond product, iff the limit is at most 29; the same limit decides whether every back-off is positive |
| `Backoff.DelayOverflows` | backend/internal/queue/worker.go:144 | the 29th back-off comes out negative, so run_at moves to the past |
| `Backoff.TotalDelayIs` | backend/internal/queue/worker.go:137-146 | the back-offs before the n-th attempt add up to 2^(n-1) - 1 minutes (n at most 29) |
| `JobQueue.AlwaysFailingJob` | backend/internal/queue/worker.go:137-153 | a job whose handler always fails has as many attempts as failures, is pending until the max_attempts-th failure and failed exactly after it, for every limit; each retry is due a back-off after the failure before it, which up to the 28th is exactly the doubling delay |
| `JobQueue.BackoffsAddUp` | backend/internal/queue/worker.go:137-153 | when each attempt fails the moment it is due, the next one after k failures is due 2^k - 1 minutes after the first (k at most 28, beyond which the product overflows) |
| `JobQueue.WorkSplits` | backend/internal/queue/worker.go:76-83 | the amount of work left in a table does not depend on the order in which the rows are counted |
| `JobQueue.HandlingUsesWork` | backend/internal/queue/worker.go:106-166 | claiming a row and handling it, whether it completes, fails or retries, strictly lowers the work left and touches no other row |
| `JobQueue.DrainRound` | backend/internal/queue/worker.go:106-130 | one round of the drain loop keeps: only rows pending and due were claimed, unclaimed rows are as they were, rounds so far plus work left is at most the work at the start |
| `JobQueue.BackgroundWorker.RequeueStaleProcessingJobs` | backend/internal/queue/worker.go:85-104 | exactly the processing rows locked 15 minutes ago or longer become pending and unlocked |
| `JobQueue.BackgroundWorker.ClaimNext` | backend/internal/queue/worker.go:106-130 | the claim takes a due row with the least run_at and locks it, and finds none only when no row is due |
| `JobQueue.BackgroundWorker.HandleLockedJob` | backend/internal/queue/worker.go:132-166 | the final write goes by job id: after a failure the row in the table has one attempt more and is failed, or pending and due the back-off (doubling up to the 28th) after the failure; after a success only its status changes; nothing when the row is gone, and no other row ever |
| `JobQueue.BackgroundWorker.ProcessNextJobIfAvailable` | backend/internal/queue/worker.go:106-130 | one poll: nothing changes when nothing is due; otherwise a row with the least run_at is claimed, handled and written back |
| `JobQueue.BackgroundWorker.ProcessDueJobs` | backend/internal/queue/worker.go:76-83 | undisturbed, the drain loop ends whatever the handlers do and however long they take: every row due at the start is claimed, nothing is due at the last poll, at most `Work` claims are made, and unclaimed rows are untouched |
| `QueueProtocol.LockInvStep` | backend/internal/queue/worker.go:85-166 | each statement of a worker and each API transaction keeps: attempts are bounded, failed means all attempts used, a busy worker holds a copy of the current row, no row is in two hands; all that is assumed is that a requeue meets no busy worker whose row is stale |
| `QueueProtocol.ApiKeepsLocks` | backend/internal/api/handlers/mcp.go:2226-2240 | scheduling, cancelling and unrelated inserts and deletes keep the locking invariant while workers are busy |
| `QueueProtocol.RequeueKeepsLocks` | backend/internal/queue/worker.go:85-104 | a requeue that meets no busy worker with a stale row takes no row away from a live worker |
| `QueueProtocol.FinishKeepsLocks` | backend/internal/queue/worker.go:132-166 | a worker that lets go of its job may leave any well-formed row, or none, and the others are not affected |
| `QueueSafety.LockInvAlong` | backend/internal/queue/worker.go:76-166 | the locking invariant holds in every state of every run with safe requeues, from an empty database |
| `QueueSafety.MutualExclusion` | backend/internal/queue/worker.go:76-166 | in every state of every run with safe requeues no job is in the hands of two workers, and what a worker has in memory is the row itself as long as the row exists |
| `QueueSafety.RequeueSafeIff` | backend/internal/queue/worker.go:85-104 | a requeue keeps the locking invariant iff no busy worker whose row exists claimed it 15 minutes ago or earlier |
| `QueueSafety.ExclusionIff` | backend/internal/queue/worker.go:85-166 | over whole runs: workers and rows stay in step in every state iff no requeue ever meets a busy worker whose existing row it claimed 15 minutes ago or earlier |
| `QueueSafety.OrderlyIsSafe` | backend/internal/queue/worker.go:76-104 | that condition holds in every run of a single worker, with no assumption on time and across crashes, and in every run whose final writes land within 15 minutes of their claims |
| `QueueSafety.SlowWorkerBreaksExclusion` | backend/internal/queue/worker.go:85-166 | without that: a run with two workers, one of them slow, in which a job is in two hands and a completed job becomes pending again |
| `QueueSafety.RowsOnlyMoveForward` | backend/internal/queue/worker.go:85-166 | between any two moments of a run with safe requeues, completed and failed rows are frozen, attempts never shrink, run_at never moves back (limit at most 29), and a deleted row does not return |
| `QueueSafety.AttemptsBounded` | backend/internal/queue/worker.go:137-146 | attempts never exceed max_attempts and reach it exactly on failed rows |
| `QueueSafety.RetryIsLaterIff` | backend/internal/queue/worker.go:139-146 | every retry is due after the failure it follows, iff the limit is at most 29 |
| `QueueSafety.BirthInvStep` | backend/internal/queue/worker.go:106-166 | no step, whatever the timing, makes a row claimable before the time it was inserted with, nor, up to a limit of 29, takes the run_at of a row or a held copy before it |
| `QueueSafety.PublishInvStep` | backend/internal/api/handlers/mcp.go:2285-2316 | every step keeps: publish rows belong to posts that are not drafts, a post has at most one, and a scheduled post has one inserted with its actual_run_at |
| `QueueSafety.PublishInvSchedule` | backend/internal/api/handlers/mcp.go:2306-2314 | deleting the old publish rows and inserting the new one in a transaction restores "exactly one" whatever was validated before |
| `QueueSafety.OnePublishJobPerPost` | backend/internal/api/handlers/mcp.go:2513-2532 | in every state of every run, with any number of workers and any timing, a post has at most one publish_post row, a draft none and a scheduled post exactly one |
| `QueueSafety.NeverClaimedEarly` | backend/internal/queue/worker.go:106-130 | whatever its attempt limit, no job is claimed before the run_at it was inserted with, and no job of a post that is still scheduled before the actual_run_at of the post |
| `QueueSafety.DeletedStaysDeleted` | backend/internal/api/handlers/mcp.go:2525-2530 | a job id that is gone never comes back, in any run |
| `QueueSafety.CancelledJobIsInert` | backend/internal/queue/worker.go:149-161 | a worker that still holds a job deleted by cancel_post or schedule_draft changes no row at all when it finishes: it neither revives the job nor touches its replacement |
| `QueueSafety.CrashedJobIsRecovered` | backend/internal/queue/worker.go:85-104 | in every run, whatever the timing, a row left in processing is back in the queue after a requeue iff it was locked 15 minutes ago or earlier, with attempts and run_at unchanged |
| `QueueAccounting.HoldersAfter` | backend/internal/queue/worker.go:106-166 | the number of workers holding a job goes up by one with a claim and down by one with a completion, failure or crash |
| `QueueAccounting.EveryClaimIsAccountedFor` | backend/internal/queue/worker.go:106-166 | in every run: claims = completions + failures + crashes + workers still busy with the job |
| `QueueAccounting.RowTellsHistory` | backend/internal/queue/worker.go:132-166 | in every run with safe requeues the attempts column equals the number of recorded failures, and a row is completed iff it was completed exactly once |
| `QueueAccounting.FinishedJobClaims` | backend/internal/queue/worker.go:132-166 | a failed job was claimed exactly max_attempts times plus once per crash; a completed one once more than it failed and crashed |
| `QueueEffects.FailureReachesRow` | backend/internal/queue/worker.go:137-153 | in every run with safe requeues a failure at time t takes the row from k to k + 1 attempts and makes it pending and due 2^k minutes after t, or failed when the attempts are used up; kind, limit, lock and all other rows stay |
| `QueueEffects.CompletionReachesRow` | backend/internal/queue/worker.go:156-161 | a completion changes the status of its row and nothing else |
| `QueueEffects.ClaimReachesRow` | backend/internal/queue/worker.go:106-130 | a claim takes a row that is pending and due, locks it for the worker at this moment, hands the worker a copy of it, and changes nothing else |
| `QueueEffects.ClaimIsPossibleIff` | backend/internal/queue/worker.go:106-130 | a free worker can claim something iff some row is pending with run_at now or earlier |
| `QueueEffects.RequeueReachesRows` | backend/internal/queue/worker.go:85-104 | row by row: processing and locked 15 minutes ago or longer becomes pending and unlocked, everything else stays |
| `QueueEffects.SchedulePostReachesRows` | backend/internal/api/handlers/mcp.go:2226-2240 | the new post is scheduled, with scheduled_at and actual_run_at the requested time, and has one fresh job due then; nothing else changes |
| `QueueEffects.ScheduleDraftReachesRows` | backend/internal/api/handlers/mcp.go:2285-2316 | the post is scheduled, with scheduled_at the requested and actual_run_at the delayed time; of its publish jobs only the new one is left, fresh and due at the delayed time; other posts and jobs stay |
| `QueueEffects.CancelPostReachesRows` | backend/internal/api/handlers/mcp.go:2513-2532 | the post is a draft without times and without publish jobs; other posts and jobs stay |
| `SchedulingHandlers.SchedulingHandler.DeletePublishJobsOf` | backend/internal/api/handlers/job_payload.go:16-18 | the DELETE removes exactly the publish_post rows whose payload names the post |
| `SchedulingHandlers.SchedulingHandler.CommitSchedulePost` | backend/internal/api/handlers/mcp.go:2226-2240 | the transaction of schedule_post is one step of the protocol |
| `SchedulingHandlers.SchedulingHandler.CommitScheduleDraft` | backend/internal/api/handlers/mcp.go:2285-2316 | the transaction of schedule_draft is one step of the protocol, whatever has become of the post since its validation |
| `SchedulingHandlers.SchedulingHandler.CommitCancelPost` | backend/internal/api/handlers/mcp.go:2517-2532 | the transaction of cancel_post is one step of the protocol |
| `SchedulingHandlers.SchedulingHandler.CancelPost` | backend/internal/api/handlers/mcp.go:2504-2542 | refused exactly for missing, published and publishing posts, with nothing changed; otherwise the protocol step |
| `SchedulingHandlers.SchedulingHandler.ScheduleDraft` | backend/internal/api/handlers/mcp.go:2264-2329 | refused exactly for missing posts and posts that are not drafts, with nothing changed; otherwise the protocol step |
| `Ids.NormalizeMCPIDs` | backend/internal/api/handlers/mcp.go:3321-3336 | the loop computes the normal form: trimmed ids, each at its first occurrence, or an error for a blank one |
| `Ids.NormalizeFacts` | backend/internal/api/handlers/mcp.go:3321-3336 | an error iff some id is blank; otherwise distinct, trimmed, not empty, and exactly the trimmed ids of the input |
| `Ids.NormalFormIff` | backend/internal/api/handlers/mcp.go:3321-3336 | a list is its own normal form iff it is distinct, trimmed and without empty ids |
| `Ids.NormalizeIdempotent` | backend/internal/api/handlers/mcp.go:3321-3336 | normalising twice is normalising once |
| `Ids.NormalizePrefix` | backend/internal/api/handlers/mcp.go:3321-3336 | ids keep the order of their first occurrence: a longer input only appends |
| `RowFacts.AttachFacts` | backend/internal/api/handlers/mcp.go:3177-3191 | attaching a list adds exactly its ids, leaves other posts alone and gives each id its position as display_order |
| `RowFacts.UpsertKeys` | backend/internal/api/handlers/mcp.go:2011-2053 | an upsert adds a variant only when the post has none for the account |
| `RowFacts.PruneFacts` | backend/internal/api/handlers/mcp.go:3203-3212 | pruning keeps exactly the variants of other posts and of the listed accounts |
| `RowFacts.StripFacts` | backend/internal/api/handlers/media.go:1003-1042 | removing a media id from variants changes only the id lists of posts in the workspace, row by row |
| `RowFacts.WithoutFacts` | backend/internal/api/handlers/media.go:1017-1025 | the filter removes the id and nothing else |
| `References.RenditionMediaMeans` | backend/internal/api/handlers/mcp.go:1970-1978 | once set_post_renditions has accepted a request, every media id in it belongs to the workspace |
| `References.MediaInvStep` | backend/internal/api/handlers/media.go:445-461 | every handler and the cleanup keep: each media id in post_media or a variant names a media row of the workspace of the post |
| `References.NoDanglingMedia` | backend/internal/api/handlers/media.go:924-1045 | after any run of drafts, schedules, renditions, uploads, deletions and cleanups, no media reference dangles or crosses workspaces |
| `References.BlockedIff` | backend/internal/api/handlers/media.go:924-985 | the usage check looks only at posts of the workspace of the media, yet passes iff every post that uses it anywhere is published |
| `References.CleanupRemovesIff` | backend/internal/queue/worker.go:196-240 | the cleanup removes a media row iff it is old, not a favourite, of the workspace, and used by no post at all |
| `References.DeletionsKeepUnpublished` | backend/internal/api/handlers/media.go:445-461 | in every reachable state no single deletion, batch or cleanup changes the attachments, their order, or the variants of an unpublished post |
| `References.UsesAfterDelete` | backend/internal/api/handlers/media.go:987-1045 | removing one media row changes no use of another |
| `References.BatchDeletesIff` | backend/internal/api/handlers/media.go:493-530 | what a batch removes is decided by the tables before it: the listed ids that could be deleted then, in whatever order they are listed |
| `MediaDeletion.DeletedIff` | backend/internal/api/handlers/media.go:429-469 | row by row: a media row is deleted iff the user may access its workspace, its files can be deleted, and every attachment and variant that names it belongs to a published post |
| `MediaDeletion.WithoutOneMention` | backend/internal/api/handlers/media.go:1017-1025 | the filtered list is what is left when the mentions of the id are cut out one by one |
| `MediaDeletion.DeletionEffect` | backend/internal/api/handlers/media.go:445-461 | a deletion removes one media row, the attachments that name it and its mentions in the variants, row by row and whatever their workspace; it changes nothing else, or nothing at all |
| `MediaDeletion.BatchAddsUp` | backend/internal/api/handlers/media.go:493-536 | the entries of a batch are the reported failures plus the media rows that are gone |
| `MediaDeletion.BatchReports` | backend/internal/api/handlers/media.go:493-530 | an id is reported once for each time it is listed, less the one time that it could be deleted |
| `MediaDeletion.CleanupEffect` | backend/internal/queue/worker.go:196-240 | the cleanup removes exactly the rows of the workspace that are old, not favourites and named by no attachment and no variant, and changes nothing else |
| `References.OrderedStep` | backend/internal/api/handlers/mcp.go:3177-3201 | every handler keeps the display_orders of each post different |
| `References.AttachmentsStayOrdered` | backend/internal/api/handlers/mcp.go:3177-3201 | after any run the display_orders of a post are pairwise different; deletions may leave gaps but keep places |
| `Destinations.OneVariantPerAccount` | backend/internal/api/handlers/mcp.go:2011-2053 | after any run a post has at most one variant per account |
| `Destinations.DestinationCheckExactIff` | backend/internal/api/handlers/mcp.go:3277-3297 | comparing the number of destination rows with the number of requested accounts means "all of them are destinations" for every request, iff no account has two rows |
| `Destinations.AccountsAfterReplace` | backend/internal/api/handlers/mcp.go:3154-3175 | replacing destinations gives the post exactly the listed accounts, in order, and leaves other posts alone |
| `Destinations.TargetInvStep` | backend/internal/api/handlers/mcp.go:1817-1842 | every handler keeps variants within the destinations of their post, if create_draft is given each account once |
| `Destinations.VariantsHaveDestinations` | backend/internal/api/handlers/mcp.go:2293-2300 | after any run in which create_draft got each account once, every variant belongs to an account the post is sent to |
| `Destinations.TargetsKeptIff` | backend/internal/api/handlers/mcp.go:3277-3297 | exactly when that is safe: from any tables with targeted variants, all further runs keep them targeted iff no post repeats an account in its destinations |
| `Destinations.EditableRepeatCanBreak` | backend/internal/api/handlers/mcp.go:1939-1979 | for a draft, a scheduled or a failed post that repeats a destination, one accepted set_post_renditions request is enough |
| `Destinations.RepeatCanBreak` | backend/internal/api/handlers/mcp.go:1939-1979 | from any post with a repeated destination there is a run that ends with a variant for an account the post is not sent to; the publisher acts in it only if the post was being or had been published |
| `Destinations.CreateDraftSafeIff` | backend/internal/api/handlers/mcp.go:1717-1725 | an accepted create_draft is safe for all that may follow iff the raw account list it was given repeats no id |
| `ScheduledPosts.TargetsStep` | backend/internal/api/handlers/mcp.go:2293-2300 | every handler keeps: destination rows belong to posts, and a scheduled post has some |
| `ScheduledPosts.ScheduledPostsHaveDestinations` | backend/internal/api/handlers/mcp.go:2402-2420 | after any run every scheduled post has a destination row and every destination row has its post |
| `Acceptance.AccountsOkIff` | backend/internal/api/handlers/mcp.go:3245-3275 | the check by counting rows passes iff every id, once trimmed, is that of an active account of the workspace, none blank |
| `Acceptance.MediaOkIff` | backend/internal/api/handlers/mcp.go:3299-3319 | the check by counting rows passes iff every id, once trimmed, is that of a media row of the workspace, none blank |
| `Acceptance.BlankIff` | backend/internal/api/handlers/mcp.go:1695 | blank means nothing but white space |
| `Acceptance.CreateDraftIff` | backend/internal/api/handlers/mcp.go:1682-1707 | accepted iff the content is not blank, all accounts are active ones of the workspace and all media belong to it |
| `Acceptance.SchedulePostIff` | backend/internal/api/handlers/mcp.go:2144-2186 | the same, and at least one account |
| `Acceptance.UpdateDraftIff` | backend/internal/api/handlers/mcp.go:1854-1878 | accepted iff the post is a draft of the workspace, something is given, and what is given is valid; empty lists are |
| `Acceptance.ScheduleDraftIff` | backend/internal/api/handlers/mcp.go:2331-2420 | accepted iff the post is a draft, the given lists are valid, and the accounts given, or else those of its destination rows, are active and not none |
| `Acceptance.SetPostRenditionsIff` | backend/internal/api/handlers/mcp.go:1939-2009 | accepted, for every post, iff the post is neither published nor being published, the renditions are some, for different accounts, each active with content and media of the workspace, and as many as the post has destination rows for these accounts |
| `Acceptance.SetPostRenditionsWithoutRepeats` | backend/internal/api/handlers/mcp.go:1939-2009 | for a post that repeats no destination the count means that each account is a destination of the post |
| `Acceptance.RepeatedAccountRun` | backend/internal/api/handlers/mcp.go:1717-1725 | literal requests from the empty tables: create_draft with accounts a and a, then renditions for a and b, are accepted and leave a variant for b, while all destination rows name a |
| `Acceptance.CreateDraftEffect` | backend/internal/api/handlers/mcp.go:1708-1737 | the new post is a draft, its destinations are exactly the accounts as given and its attachments the normalised media in order, and nothing of other posts changes |
| `Acceptance.SchedulePostEffect` | backend/internal/api/handlers/mcp.go:2194-2240 | the new post is scheduled, its destinations are exactly the normalised accounts and its attachments the normalised media in order, and nothing of other posts changes |
| `Acceptance.ReplaceEffect` | backend/internal/api/handlers/mcp.go:2293-2305 | a given account list becomes the destinations and leaves exactly the variants for it; a given media list becomes the attachments, in order; what is not given stays, and so does everything of other posts |
| `Acceptance.UpdateDraftEffect` | backend/internal/api/handlers/mcp.go:1811-1842 | an accepted update_draft has that effect with the normalised lists, and changes no post row, media row or account |
| `Acceptance.ScheduleDraftEffect` | backend/internal/api/handlers/mcp.go:2264-2316 | an accepted schedule_draft has that effect with the normalised lists, and the post is scheduled |
| `Acceptance.SetPostRenditionsEffect` | backend/internal/api/handlers/mcp.go:1905-1918 | afterwards each rendition is the variant of its account, with its content and media, and every other variant is as it was |
| `Handlers.Handler.InsertPostMedia` | backend/internal/api/handlers/mcp.go:3177-3191 | the loop inserts the rows of the list, numbered by position |
| `Handlers.Handler.ReplacePostMedia` | backend/internal/api/handlers/mcp.go:3193-3201 | the old attachments of the post are gone and the new ones are in place |
| `Handlers.Handler.InsertDestinations` | backend/internal/api/handlers/mcp.go:3164-3174 | one row per account, in order |
| `Handlers.Handler.ReplacePostDestinations` | backend/internal/api/handlers/mcp.go:3154-3175 | the rows of the post are exactly the new ones; rows of other posts stay |
| `Handlers.Handler.CreateDraft` | backend/internal/api/handlers/mcp.go:1682-1747 | accepted or refused as the tables say; accepted, it adds the post, one row per raw account id and the normalised media |
| `Handlers.Handler.SchedulePost` | backend/internal/api/handlers/mcp.go:2144-2253 | the rows written besides the job: post, one row per normalised account, media |
| `Handlers.Handler.UpdateDraft` | backend/internal/api/handlers/mcp.go:1811-1878 | the transaction as a whole: destinations replaced and variants pruned when accounts are given, attachments replaced when media are |
| `Handlers.Handler.ScheduleDraft` | backend/internal/api/handlers/mcp.go:2264-2329 | as update_draft, with the status, for a draft that has at least one active target |
| `Handlers.Handler.ValidateRenditions` | backend/internal/api/handlers/mcp.go:1981-2009 | accepts exactly distinct accounts, none blank, contents not blank, media ids well-formed; returns the accounts and the normalised union of the media |
| `Handlers.Handler.UpsertRendition` | backend/internal/api/handlers/mcp.go:2011-2053 | overwrites the first variant of the post for the account or appends one |
| `Handlers.Handler.UpsertRenditions` | backend/internal/api/handlers/mcp.go:1911-1918 | the loop upserts all renditions in order |
| `Handlers.Handler.SetPostRenditions` | backend/internal/api/handlers/mcp.go:1905-1979 | all renditions are upserted in order, or nothing changes |
| `Handlers.Handler.BlockingUsage` | backend/internal/api/handlers/media.go:924-985 | the number of unpublished posts of the workspace that use the media, each counted once |
| `Handlers.Handler.FilterIds` | backend/internal/api/handlers/media.go:1017-1025 | the list without the id, and whether that is a change |
| `Handlers.Handler.RemoveMediaReferences` | backend/internal/api/handlers/media.go:987-1045 | no attachment names the media, and no variant of the workspace does |
| `Handlers.Handler.DeleteMedia` | backend/internal/api/handlers/media.go:429-469 | deletes exactly when the media exists, is accessible, blocks no unpublished post and its files can be deleted |
| `Handlers.Handler.BatchDeleteMedia` | backend/internal/api/handlers/media.go:479-536 | refuses empty lists and more than 100 ids; otherwise reports as failed exactly the ids that could not be deleted before the batch or are listed twice, and counts the rest as deleted |
| `Handlers.Handler.VariantMediaIds` | backend/internal/queue/worker.go:272-298 | exactly the media ids in variants of the workspace |
| `Handlers.Handler.CleanupCandidates` | backend/internal/queue/worker.go:211-220 | exactly the old, unfavourited media of the workspace that post_media does not name |
| `Handlers.Handler.DeleteUnused` | backend/internal/queue/worker.go:227-232 | removes the candidates that no variant uses and nothing else |
| `Handlers.Handler.MediaCleanup` | backend/internal/queue/worker.go:196-320 | does nothing for days <= 0; otherwise removes exactly the unused media older than the cutoff and, iff the workspace still has a positive setting, queues the next cleanup for a day later |
| `SlotSearch.IsSlotOccupied` | backend/internal/api/handlers/posting_schedules.go:419-426 | whether some post shares the minute of the slot |
| `SlotSearch.DayCandidates` | backend/internal/api/handlers/posting_schedules.go:444-462 | exactly the free slots of the day that are strictly ahead of now |
| `SlotSearch.FindNextConfiguredScheduleSlotTime` | backend/internal/api/handlers/posting_schedules.go:428-469 | in local time: the result is a whole minute after now, on the weekday and at the hour and minute of the returned schedule, 0 to 29 days after today, no post lies in its minute, and no earlier instant is all that for any schedule; none exactly when no instant is |
| `SlotSearch.FreeSlotsAre` | backend/internal/api/handlers/posting_schedules.go:383-385 | the free slots are exactly the instants after now that show weekday, hour and minute of a schedule on the local clock within the horizon and whose minute holds no post |
| `SlotBooking.SlotsAreWholeMinutes` | backend/internal/api/handlers/posting_schedules.go:383-385 | two slots share a minute only if they are equal |
| `SlotBooking.OrderDoesNotMatter` | backend/internal/api/handlers/posting_schedules.go:428-469 | order and repetition of schedules and posts do not change the free slots |
| `SlotBooking.OldPostsDoNotMatter` | backend/internal/api/handlers/mcp.go:2624-2635 | dropping the posts scheduled more than 24 hours ago changes nothing |
| `SlotBooking.BookingTakesOneSlot` | backend/internal/api/handlers/posting_schedules.go:419-426 | booking a free slot takes that slot and no other |
| `SlotBooking.BookEverySlot` | backend/internal/api/handlers/posting_schedules.go:428-469 | repeated search and booking from a fixed now yields strictly increasing times, enumerates exactly the free slots and ends with none left |
| `SlotBooking.SlotCountIs` | backend/internal/api/handlers/posting_schedules.go:440-456 | a schedule has four slots in the horizon, five when its weekday is tomorrow or it is still ahead today |
| `SlotBooking.TotalSlotsIs` | backend/internal/api/handlers/posting_schedules.go:440-456 | pairwise different schedules share no slot, so their slots add up |
| `SlotBooking.PostsTakeFewSlots` | backend/internal/api/handlers/posting_schedules.go:419-426 | n posts occupy at most n slots |
| `SlotBooking.FewPostsLeaveASlot` | backend/internal/api/handlers/posting_schedules.go:428-469 | n pairwise different schedules and fewer than 4n posts: a slot is found; more exactly, free slots are at least the slots minus the posts |
| `SlotBooking.BookFromScratch` | backend/internal/api/handlers/posting_schedules.go:428-469 | the count is sharp: an empty calendar takes exactly the counted number of bookings |
| `FrameFormat.FrameRoundTrip` | cli/internal/mcpstdio/stdio.go:99-141 | a written frame reads back as its body, whatever its bytes and whatever follows, and reading stops right behind it |
| `FrameFormat.CutHeaderFails` | cli/internal/mcpstdio/stdio.go:99-118 | a header cut anywhere ends in io.EOF |
| `FrameFormat.NoPrefixIsAFrame` | cli/internal/mcpstdio/stdio.go:99-133 | no proper prefix of a frame is a frame; the cut is reported as unexpected iff at least one byte of the body arrived |
| `FrameFormat.StreamRoundTrip` | cli/internal/mcpstdio/stdio.go:35-56 | a stream of frames reads back as the bodies in order, then EOF |
| `FrameFormat.TruncatedStream` | cli/internal/mcpstdio/stdio.go:35-56 | cutting a stream loses bodies at the end and neither alters nor invents one |
| `StdioProxy.Reader.ReadString` | cli/internal/mcpstdio/stdio.go:99-108 | a line up to and including the delimiter, or the rest with EOF |
| `StdioProxy.Reader.ReadFull` | cli/internal/mcpstdio/stdio.go:128-132 | n bytes, or EOF / unexpected EOF |
| `StdioProxy.Writer.WriteFrame` | cli/internal/mcpstdio/stdio.go:135-141 | appends one frame to the output |
| `StdioProxy.SplitHeaderLine` | cli/internal/mcpstdio/stdio.go:109-117 | a line without its line end is the end of the header, an entry with lower-case trimmed name and trimmed value, or malformed |
| `StdioProxy.ReadHeaderLine` | cli/internal/mcpstdio/stdio.go:102-108 | takes one line off the reader, or fails at the end of the input |
| `StdioProxy.ReadHeaderLines` | cli/internal/mcpstdio/stdio.go:100-118 | the header loop returns the map of the last value for each name and stops behind the empty line, or returns the error |
| `StdioProxy.ReadFrame` | cli/internal/mcpstdio/stdio.go:99-133 | the loop over a live reader returns the frame or the error of the format and consumes exactly the frame |
| `StdioProxy.Serve` | cli/internal/mcpstdio/stdio.go:35-56 | the loop writes the responses of the frames it can read, in order, leaves out empty ones, and returns an error exactly when reading ends in one other than EOF |
| `StdioProxy.ServeAnswersInOrder` | cli/internal/mcpstdio/stdio.go:35-56 | served a stream of requests, the output is the stream of the responses and there is no error |
| `StdioProxy.ServeStopsAtError` | cli/internal/mcpstdio/stdio.go:35-56 | served frames and then something that is not a frame, the output is the stream of the responses to the frames and the error is that of the rest, unless it is the end of the input |
| `StdioProxy.ServeCutStream` | cli/internal/mcpstdio/stdio.go:35-56 | served a stream cut inside a frame, the whole frames are answered and only a cut body is an error |
| `HeaderTexts.LeadingSpaceIff` | cli/internal/mcpstdio/stdio.go:117 | the trimming of bytes begins exactly where the UTF-8 encoding of a white-space character stands |
| `HeaderTexts.TrimSpaceIff` | cli/internal/mcpstdio/stdio.go:117 | the trimmed bytes are the one text with white space at neither end and nothing but white space around it |
| `HeaderTexts.NamesLengthIff` | cli/internal/mcpstdio/stdio.go:117-120 | a header line is that of the length iff its name is Content-Length in any letter case with any white space around it |
| `HeaderTexts.WritesLengthIff` | cli/internal/mcpstdio/stdio.go:124-127 | a value is read as n iff it is decimal digits for n, with leading zeros or a plus sign or not, and n fits an int64 |
| `ForeignFrames.FrameIsRead` | cli/internal/mcpstdio/stdio.go:99-133 | whatever other headers there are, with LF or CRLF line ends: the last Content-Length entry, in any letter case and padding, says how many bytes behind the empty line are the body |
| `ForeignFrames.BodyIsCut` | cli/internal/mcpstdio/stdio.go:128-132 | fewer bytes than that are an unexpected end, or the end when there are none |
| `ForeignFrames.LengthIsMissing` | cli/internal/mcpstdio/stdio.go:120-123 | no Content-Length entry, or a last one with a blank value, is a missing header |
| `ForeignFrames.LengthIsInvalid` | cli/internal/mcpstdio/stdio.go:124-127 | any other value of the last Content-Length entry is invalid |
| `ForeignFrames.HeaderIsInvalid` | cli/internal/mcpstdio/stdio.go:113-116 | a line without a colon makes the header invalid, whatever comes before it |
| `ForeignFrames.HeaderIsCut` | cli/internal/mcpstdio/stdio.go:101-108 | an input that ends within its header ends in EOF |
| `ThreadMarkdown.TakeFrontMatter` | cli/internal/commands/thread.go:136-149 | front matter is there iff the first line and a later one are rule lines; it is the lines between the first two |
| `ThreadMarkdown.CollectSegments` | cli/internal/commands/thread.go:150-160 | the trimmed text of each group of lines between rule lines |
| `ThreadMarkdown.ParseThreadMarkdown` | cli/internal/commands/thread.go:132-170 | the loops compute the parse: the first empty segment, too few posts, or the segments |
| `ThreadRoundTrip.ParsedSegmentsAreClean` | cli/internal/commands/thread.go:132-170 | a successful parse yields at least two segments, each trimmed, not empty and without a rule line |
| `ThreadRoundTrip.WriteThenParse` | cli/internal/commands/thread.go:132-170 | joining two or more clean segments with rule lines and parsing gives them back, with CRLF turned into LF |
| `ThreadRoundTrip.WriteThenParseFrontMatter` | cli/internal/commands/thread.go:137-149 | the same with front matter in front, which is handed on unchanged |
| `ThreadRoundTrip.RoundTripIff` | cli/internal/commands/thread.go:132-202 | a list of segments survives writing and parsing iff there are at least two, all clean and none with CRLF |
| `ThreadTexts.RuleLineIff` | cli/internal/commands/thread.go:200-202 | a rule line is three hyphens with nothing but white space around them |
| `ThreadTexts.EveryFileIsGroups` | cli/internal/commands/thread.go:150-160 | every list of lines is groups of lines without rule lines, with rule lines between them |
| `ThreadTexts.ParseOfGroups` | cli/internal/commands/thread.go:150-170 | a file whose first line is no rule line: the first text between rule lines that is blank is reported, then fewer than two texts are, and otherwise the posts are these texts without the white space around them |
| `ThreadTexts.ParseBehindFrontMatter` | cli/internal/commands/thread.go:136-170 | a file that opens with a rule line and has another one: the text between the two is the front matter, and the posts are those of the texts behind it |
| `ThreadTexts.ParseOfLoneRule` | cli/internal/commands/thread.go:136-160 | a file that opens with its only rule line has an empty first post |
| `ThreadTexts.ParseOfTexts` | cli/internal/commands/thread.go:132-170 | the same said of whole texts: any texts without rule lines, joined with any rule lines |
| `ThreadTexts.PaddedSegmentsParse` | cli/internal/commands/thread.go:150-160 | two or more clean segments come back whatever white space stands around each of them and on the rule lines |
| `ThreadTexts.PaddedSegmentsParseBehindFrontMatter` | cli/internal/commands/thread.go:136-160 | the same behind front matter, which is handed on unchanged |
| `ThreadTexts.CRLFFilesParseAlike` | cli/internal/commands/thread.go:133-134 | a file parses the same whether its lines end in LF or in CRLF |
| `BlueskyThread.AttachReplyToRecord` | backend/internal/platform/bluesky.go:499-522 | on aliased maps: what the record marshals to has the parent without `_root`, and as root the stored root or the parent itself; nothing is attached when the id is not a map |
| `BlueskyThread.Publish` | backend/internal/platform/bluesky.go:436-441 | the reply part sent and the external id stored for one post |
| `BlueskyThread.StoredRootIsFirst` | backend/internal/platform/bluesky.go:582-594 | in a thread of any length the stored root is from the second post on exactly the first external id, so ids never nest deeper |
| `BlueskyThread.ReplyReferences` | backend/internal/platform/bluesky.go:499-522 | every reply has its immediate predecessor as parent and the first post as root |
| `BlueskyThread.RepliesBelowPlainPost` | backend/internal/platform/bluesky.go:499-522 | a post known by its plain reference is the root of its replies and of the replies to these |
| `BlueskyThread.RootIsKeptIff` | backend/internal/platform/bluesky.go:582-594 | for any stored document: the reply to it and the reply to that reply are sent with the same root, iff the document has an object or nothing as its root or the two posts are one |
| `BlueskyThread.PublishThread` | backend/internal/services/publisher/publisher.go:722-738 | publishing a thread through the stored ids sends and stores exactly these |
| `KeyedMerge.BaseExact` | backend/internal/platform/registry.go:123-128 | after the base, the list is the base and the index maps exactly its keys, each to its last position |
| `KeyedMerge.OverridesExact` | backend/internal/platform/registry.go:129-138 | overrides keep the index exact |
| `KeyedMerge.IndexIsDetermined` | backend/internal/platform/registry.go:120-138 | an exact index is determined by the list, so a merge can be resumed from the list alone |
| `KeyedMerge.MergeAllInTwoSteps` | backend/internal/platform/registry.go:119-140 | merging two lists of overrides in turn is merging them together, even when keys repeat |
| `KeyedMerge.BasePositions` | backend/internal/platform/registry.go:129-133 | each base entry keeps its position and is replaced exactly when it is the last of its key and some override has the key |
| `KeyedMerge.AppendedEntries` | backend/internal/platform/registry.go:136-137 | appended entries have new, pairwise different keys and are the last override of their key |
| `KeyedMerge.LastOverrideIsPlaced` | backend/internal/platform/registry.go:129-138 | the last override of every key is in the result |
| `KeyedMerge.TwoStepsIff` | backend/internal/platform/registry.go:119-140 | with normalisation on the way in, two merges equal one for all second overrides iff a second normalisation leaves alone what the first merge keeps |
| `AppConfigs.MergeAppConfigs` | backend/internal/platform/registry.go:119-140 | the two loops compute the merge of the normalised lists |
| `AppConfigs.StableIff` | backend/internal/platform/registry.go:156-164 | a config is unchanged by a second normalisation iff its instance URL without trailing slashes has no white space at its ends |
| `AppConfigs.AddBaseApps` | backend/internal/platform/registry.go:120-128 | the first loop builds the normalised base and the index of its keys |
| `AppConfigs.MergeInTwoStepsIff` | backend/internal/config/config.go:176 | two merges in sequence equal one merge of the concatenated overrides, whatever the second ones are, iff every base config that is not overridden and every first override that is the last of its key is stable |
| `AppConfigs.MergeInTwoSteps` | backend/cmd/openpost/main.go:125 | the forward direction for one pair of lists |
| `AppConfigs.MergeNothingTwiceIff` | backend/internal/platform/registry.go:119-164 | the special case of no overrides: merging nothing twice equals merging nothing once iff every base config is stable |
| `AppConfigs.UnstableUrlBreaksTwoSteps` | backend/internal/platform/registry.go:156-164 | the instance URL "a /" is not stable, and merging nothing twice into a base with it differs from once |
| `AppConfigs.LastOverrideWins` | backend/internal/platform/registry.go:119-140 | base order and positions are kept, and the last override of a key takes the place of the last base entry of that key |
| `AppConfigs.NewKeysAreAppended` | backend/internal/platform/registry.go:136-137 | everything behind the base has a key new to the base, each key once, with its last override |
| `AppConfigs.NewKeysInOrder` | backend/internal/platform/registry.go:136-137 | appended entries are in the order in which their keys first occur among the overrides |
| `AppKeys.KeysEqualIff` | backend/internal/platform/registry.go:142-148 | two configs have the same key iff their trimmed lower-case providers are the same and, for Mastodon, their trimmed instance URLs without trailing slashes; or the provider of one is spelled like the Mastodon key of the other |
| `AppKeys.KeyIsSameApp` | backend/internal/platform/registry.go:142-148 | without colons in providers that last case is out |
| `AppKeys.KeptEntry` | backend/internal/platform/registry.go:129-133 | a base config stays as it was, normalised, unless it is the last one of its app and some override is for the same app |
| `AppKeys.ReplacedEntry` | backend/internal/platform/registry.go:129-133 | and then the last override for the app is in its place |
| `AppKeys.AppendedEntry` | backend/internal/platform/registry.go:134-137 | an entry behind the base is the last override for an app that the base does not have |
| `AppKeys.NewAppIsAppended` | backend/internal/platform/registry.go:134-137 | the last override for an app that the base does not have is in the result |
| `AppKeys.InstancesAreKept` | backend/internal/platform/registry.go:142-148 | Mastodon configs of different instances never replace one another |
| `AppKeys.OtherProvidersAreReplaced` | backend/internal/platform/registry.go:142-148 | of two configs for one other provider the override replaces the base one, whatever their instance URLs are |
| `AppKeys.NormalizedFields` | backend/internal/platform/registry.go:156-164 | field by field what normalising leaves: each field without the white space around it, the provider in lower case, the instance URL without its trailing slashes |
| `AccountPicker.ResolveOne` | cli/internal/accountpicker/accountpicker.go:49-80 | the loop finds the lowest non-empty match class among active accounts and decides by its size |
| `AccountPicker.PickedIff` | cli/internal/accountpicker/accountpicker.go:49-80 | a selector yields an id iff one active account, with this id, is alone in its class and no better class has any |
| `AccountMatching.MatchesHandleIff` | cli/internal/accountpicker/accountpicker.go:100-106 | a selector names an account by handle iff it is the platform of the account, ":" or ":@", and the username up to letter case |
| `AccountMatching.HostOfIff` | cli/internal/accountpicker/accountpicker.go:122-129 | the host is what is left of the URL without https://, http:// and everything from the first slash on that is not in front |
| `AccountMatching.HostUnderScheme` | cli/internal/accountpicker/accountpicker.go:122-129 | with or without a scheme and with any path the host is the same |
| `AccountMatching.AccountMatchesIff` | cli/internal/accountpicker/accountpicker.go:93-120 | the match class of an account is the first of the five ways in which the selector names it: id, slug, platform and handle, platform, Mastodon host |
| `AccountMatching.PickedMeans` | cli/internal/accountpicker/accountpicker.go:49-120 | a selector yields an id iff one active account, of that id, is named by it and no other active account is named as well or better |
| `AccountMatching.NoAccountMeans` | cli/internal/accountpicker/accountpicker.go:49-120 | nothing is found iff no active account is named in any of the five ways |
| `AccountPicker.ResolveSelectorOrder` | cli/internal/accountpicker/accountpicker.go:49-80 | whether a selector is resolved, and to which id, does not depend on the order of the accounts |
| `AccountPicker.Resolve` | cli/internal/accountpicker/accountpicker.go:25-47 | the loop over the selectors computes the resolved ids, skipping blank selectors and repeated ids, and fails at the first selector that is not resolved |
| `AccountPicker.ResolveFacts` | cli/internal/accountpicker/accountpicker.go:25-47 | succeeds iff every selector that is not blank is resolved; the result is duplicate-free and holds exactly their ids |
| `AccountPicker.ResolvePrefix` | cli/internal/accountpicker/accountpicker.go:25-47 | ids come in first-selector order: more selectors only append |
| `AccountPicker.ResolveOrder` | cli/internal/accountpicker/accountpicker.go:25-80 | success and result do not depend on the order of the accounts |
| `XUpload.UploadMediaChunked` | backend/internal/platform/x.go:341-372 | accepted segments are numbered from 0, concatenate to the input, hold 1 byte to 5 MiB with all but the last full, and are as many as total / 5 MiB rounded up; a refused segment is the last one sent |
| `XUpload.UploadMedia` | backend/internal/platform/x.go:255-277 | one request exactly for at most 5 MiB that is neither video nor gif; otherwise a finished upload carries the whole input |
| `XUpload.ContainsIff` | backend/internal/platform/x.go:262-263 | the MIME type contains a word iff it is the word with something before and after it |
| `XUpload.SegmentsDetermineData` | backend/internal/platform/x.go:341-372 | the segments of a finished upload determine the input |

## Left out

- HTTP calls, OAuth exchanges, the polling ticker and JSON encoding; what a remote service answers is a parameter.
- The publisher, token manager, usage and entitlement services and `posts.go`; quotas and `applyRandomDelay`.
- SQL dialects, timestamp text formats and the one-second resolution of CURRENT_TIMESTAMP; Postgres isolation.
- Workspace access checks other than the one of media deletion, and provider-specific media validation.
- Columns that no property speaks about: post content (only "not blank" is checked), labels, last_error, random_delay_minutes, timestamps of variants and posts.
- Daylight-saving gaps, where Go leaves `time.Date` open.
- `findNextOverflowPostingTime`, which nothing but its unit tests calls.
- The duplicate branch of completing a direct upload, which deletes a pending media row that a draft may already name; uploads here only add rows.
- Deleting and rescheduling media_cleanup jobs; in the protocol they are rows of some other kind that come and go.
- The keys of thread front matter; the text that would be parsed is returned as it is.
- Unicode case folding: `ToLower` and `EqualFold` act on ASCII letters. For the one header that the framing looks up this makes no difference.
- Strings that are not valid UTF-8, outside the framing, which works on bytes.
- The panic of `make` for a Content-Length beyond memory, and readers and writers that fail for other reasons than the end of input.
- The media upload requests before and after the segments, and the wait for processing.
- The X request-token hand-off, MCP tool descriptors, prompts, widget HTML, auth handlers, billing and CLI plumbing.
- Acceptance.SchedulePostIff: the checks of scheduled_at, of provider limits on media and of quotas come on top and are not modelled.
- Acceptance.ScheduleDraftIff: likewise, and the check that a random delay is not negative.
- Handlers.Handler.SchedulePost: the job row it also inserts is modelled in SchedulingHandlers, on the tables of the queue.
- Handlers.Handler.ScheduleDraft: the deleted and inserted job rows of the same transaction are modelled in SchedulingHandlers.
- Handlers.Handler.UpdateDraft: the new content is not stored, because the model keeps no content column.
- SchedulingHandlers.SchedulingHandler.ScheduleDraft: the choice of accounts and media is modelled in Handlers, and the random delay only as the run time that comes out of it.
- Handlers.Handler.RemoveMediaReferences: variants whose stored id list is not valid JSON, which the code skips, do not occur.
- Handlers.Handler.MediaCleanup: days so many (over 106751) that the int64 duration overflows do not occur; settings are limited to 365. A failure to queue the next cleanup is ignored by the code and not modelled.
- JobQueue.BackgroundWorker.ProcessDueJobs: it is one undisturbed worker, without jobs that insert rows; several workers at once are what QueueProtocol is for.
- SlotSearch.SortByTime: an insertion sort stands for `sort.Slice`; only the order of the result is used.
- ThreadTexts.ParseOfTexts: it is about texts without CR LF. Files with CR LF throughout come in through CRLFFilesParseAlike, and texts that mix both only through ThreadRoundTrip.
- AppKeys.KeptEntry: providers are without colons here, and likewise in ReplacedEntry, AppendedEntry and NewAppIsAppended; AppKeys.KeysEqualIff says which configs with a colon share a key, and AppConfigs has the same results by key, for all providers.
- ForeignFrames.FrameIsRead: header values that hold a carriage return of their own are not covered.
