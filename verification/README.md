# Verified model of Roosty's polls, moderation, sitemaps and caches

This project models the parts of the Roosty server whose correctness depends on several tables, queues
or queries agreeing with each other, and proves what those parts promise. Every transaction is given
twice where the original changes rows step by step: once as a function from the old tables to the new
ones, and once as a method of a class that performs the inserts, updates and deletes in the order of the
original, with the unique index or range of the row checked where it is written; a rejected write drops
the transaction. The methods are proved against the functions, and the theorems are about the functions
and about runs of them. What a function makes of its input is pinned down once more without it: the modules
`…Effects`, `…Events` and `…Rows` state the rows after each operation from the fields of the request and
literal numbers.

Check everything with `dafny verify dfyconfig.toml`.

## What is modelled

**Polls** (`PollModel`, `PollStore`, `PollFrames`, `PollRuns` and the theorem modules `PollTally`,
`PollDeadlines`, `PollDeadlineRuns`, `PollExpirations`, `PollLateness`, `PollNotices`, `PollBallots`,
`PollRefresh`, `PollUpdates`, `PollWitnesses`, `PollSecondExpiry`, and for scheduled statuses
`ScheduledPolls`, `ScheduledPublication` and `ScheduledWitnesses`; `PollEffects`, `PollEvents` and
`ScheduledEffects` say what each request and each event of a run changes, field by field). The state is the
poll, option, vote, notification and job tables. The schema is part of the model: votes are deleted with the
options they reference, a voter chooses an option at most once, an activity id occurs once, a recipient has
one poll notification per status (for local statuses by
crates/migration/src/m20260701_000076_create_reports_and_instance_rules.rs:125-131, for remote ones by
crates/migration/src/m20260701_000028_add_remote_status_notifications.rs:10), and a job is deduplicated
against uncompleted jobs. A run is any interleaving of creating, voting locally and remotely, editing,
refreshing and deleting notifications with job workers. Claiming a job, running its handler and recording
the outcome are three separate steps; a handler that fails, or whose publishing fails after it committed, is
retried with the delays of the original, and a lease can pass to another worker in between.

**Instance rules and reports** (`InstanceRules`, `RuleOrder`, `RuleEffects`, `Reports`, `ReportStore`,
`ReportRuns`, `ReportEffects`). The unique index on active positions is checked on every single write of the
two-pass reorder. Hydration is proved for every order in which the database may deliver rows of equal
position.

**Sitemaps** (`Sitemap`, `SitemapXml`, `SitemapCursor`, `SitemapCrawl`, `SitemapEffects`). The chunk query
numbers rows, the page query does not; the theorems are about the two together, also when the index is
stale, and from end to end: a crawler that reads the rendered index, decodes its cursors and reads the
rendered pages.

**Backfills** (`NotificationGroups`, `GroupRows`, `TrendCache`, `TrendRows`). The window and grouping
queries of two migrations against the counts and partitions they stand for.

**Administrator actions** (`AdminModel`, `AdminRuns`, `AdminPurges`, `AdminEffects`). Limiting, suspending,
purging and settling reports with the audit ledger, the announcement to other servers and the queued
cleanup, over serial runs.

## What the proofs found

These are statements about the code as it is; each is a theorem below.

- `upsert_remote_poll` is documented to reset local votes if the choices changed. Because it replaces the
  option rows in any case and votes go with their option, every refresh resets the votes
  (`PollRefresh.RefreshWipesVotes`, `PollRefresh.VotesSurviveRefreshIff`). The comparison itself is between
  stored trimmed titles and new ones as given. The federation code that builds the input trims titles first
  (crates/server/src/federation.rs:668), so padded titles do not reach it from there.
- Editing a poll clears `notifications_sent_at`, but the notification rows of the first expiry block the
  second one: its transaction is rolled back on every attempt (`PollNotices.StatusExpiresAtMostOnce`,
  `PollNotices.SecondExpiryNeedsClearedRows`; `PollSecondExpiry.SecondExpiryFails` is a run from empty tables).
- A refresh that returns a remote poll to a deadline whose job has just been run loses that job
  (`PollExpirations.CollisionIsExact`; `PollWitnesses.CollisionHappens` is a run from empty tables in which it
  does). Local edits cannot do this, because a new deadline lies at least 300 seconds ahead. Some other job is
  still due by the latest deadline the poll has had, or within an hour (`PollLateness.ExpirationIsNotLate`).
- A vote that arrives after an update job has run but before it is marked completed is not announced
  (`PollUpdates.AnnouncementKeptIff`; `PollWitnesses.AbsorptionHappens` is such a run).
- Rule mutations are serialized "so positions remain unique and contiguous"; discarding any but the last
  rule leaves a gap (`RuleOrder.DiscardKeepsContiguityIff`).
- A scheduled status is read in one transaction and written in another that does not look at the schedule
  again. One that is cancelled, deleted with a suspension, or moved in between is published all the same
  (`ScheduledPublication.StalePublicationIff`, `ScheduledWitnesses`); the primary key of the status still keeps
  it from being published twice.
- A cleanup job that was claimed and then cancelled still purges the account if it is suspended again
  before the handler runs (`AdminPurges.EarlyPurgeHappens`). The job's own row tells whether the suspension in
  force is a later one (`AdminPurges.CompletedIffOvertaken`), and the job table whether the purge is early: it is
  exactly when the account still has a cleanup that is not due (`AdminPurges.PurgeIsEarlyIff`).

## Modelling decisions

Times are integers in microseconds. Grapheme counting and the author of a status are parameters
(`PollModel.Instance`); trimming is modelled on the Unicode White_Space property. The seconds between two
notifications are divided exactly; the database's decimal division agrees at microsecond precision.
Generated UUIDs are parameters of the steps; in poll runs a step with an identifier that any table already
mentions does nothing. Database errors other than violated constraints are not modelled. In the poll tables
a title comparison is by position, which is the same as comparing the lists because positions are the
primary key.

## Model

| member | source | states |
|---|---|---|
| `PollTally.TallyAlwaysHolds` | crates/db/src/polls.rs:158-686 | In every run from a consistent state, every local poll's option counters equal its vote rows per position, its voter count equals its distinct voters, positions are exactly 0..n-1, and a single-choice poll has one row per voter |
| `PollTally.TallyHoldsFromStart` | crates/db/src/polls.rs:158-686 | The same for every run from empty tables |
| `PollTally.TotalsAreConsistent` | crates/db/src/polls.rs:398-424 | The shown total is the number of vote rows, equals the voters in a single-choice poll and lies between voters and voters times options otherwise |
| `PollTally.RecordVoteKeepsTally` | crates/db/src/polls.rs:398-424 | One accepted vote moves every counter by exactly what it moves the rows |
| `PollTally.EditExistingKeepsTally` | crates/db/src/polls.rs:450-485 | An edit, whether it replaces the options or keeps them, leaves counters and rows in agreement |
| `PollExpirations.LocalDeadlineHasJob` | crates/db/src/polls.rs:447-491 | In every run a local poll that was not notified has an uncompleted expiration job requested for exactly its current deadline, due then unless it is being retried |
| `PollExpirations.NeverClosedEarly` | crates/db/src/polls.rs:593-612 | In every run a local poll is closed exactly when notified, and never before the deadline in force, whatever stale jobs ran |
| `PollExpirations.NoDeadlineForgotten` | crates/db/src/polls.rs:734-752 | In every run, for local and remote polls, a pending deadline has a job whose handler still lies ahead |
| `PollLateness.ExpirationIsNotLate` | crates/db/src/lib.rs:21393-21563 | In every run, also after a collision, a poll with a pending deadline has a job ahead that was requested for a deadline the poll has had and is due by the latest of those, or within an hour from now while attempts fail |
| `PollLateness.JobsAreForDeadlinesHeld` | crates/db/src/polls.rs:734-752 | Every expiration job of a poll was requested for a deadline the poll had at some moment of the run |
| `PollLateness.RunSoonEnough` | crates/db/src/lib.rs:21534-21563 | In every run every expiration job is due by its own deadline or within the longest retry delay from now |
| `PollExpirations.RemoteDeadlineHasJob` | crates/db/src/polls.rs:573-575 | In every run without a colliding refresh, a remote poll with a deadline has the job of exactly that deadline |
| `PollExpirations.CollisionIsExact` | crates/db/src/polls.rs:573-575 | A refresh lets some completion leave the poll without the job of its deadline if and only if it asks for a job that a worker has run and not yet marked completed |
| `PollWitnesses.CollisionHappens` | crates/db/src/polls.rs:573-575 | A run from empty tables in which an open poll is refreshed back to a deadline whose job was just run, and ends without an uncompleted job for it |
| `PollExpirations.EditCollidesOnlyInThePast` | crates/db/src/polls.rs:24 | For an edit with any input the new deadline's job survives the next completion if and only if it is not in flight, and it can only be in flight for a deadline that is not in the future: the 300-second minimum rules the collision out |
| `PollDeadlineRuns.StepKeeps` | crates/db/src/lib.rs:21352-21563 | Each step of requests and workers keeps the job queue's keys unique, its jobs well timed and every poll's deadline covered |
| `PollRuns.RetryDelay` | crates/db/src/lib.rs:21649-21653 | Retries wait between one second and one hour |
| `PollNotices.ExpiryNotifiesEachOnce` | crates/db/src/polls.rs:613-686 | A due poll closes if and only if no recipient already has the notification; then each local voter and the local author gets exactly one row and nobody else does |
| `PollNotices.AtMostOneExpiry` | crates/db/src/polls.rs:604-612 | In any run without an edit of its status a poll newly expires at most once, and never when it was already notified |
| `PollNotices.AtMostOneExpiryBetweenEdits` | crates/db/src/polls.rs:582-686 | Between two edits a local poll newly expires at most once |
| `PollNotices.AtMostOneExpiryOfRemote` | crates/db/src/polls.rs:582-686 | A remote poll newly expires at most once in its life, whatever refreshes it receives |
| `PollNotices.StatusExpiresAtMostOnce` | crates/migration/src/m20260701_000076_create_reports_and_instance_rules.rs:125-131 | While notification rows are kept, the polls of one local status expire at most once in total, however often they are edited, removed and added |
| `PollNotices.AuthorRowBlocksExpiry` | crates/migration/src/m20260701_000076_create_reports_and_instance_rules.rs:125-131 | With the author's row present every expiry of a poll of that status fails on the unique key |
| `PollNotices.SecondExpiryNeedsClearedRows` | crates/db/src/polls.rs:477-479 | After an edit the new deadline closes the poll if and only if no recipient still has a row of an earlier expiry |
| `PollSecondExpiry.SecondExpiryFails` | crates/db/src/polls.rs:651-668 | A run from empty tables in which a poll expires, is edited, and the handler of its new deadline fails when due with the poll still open |
| `PollBallots.OnlyTimelyVotesChangeRows` | crates/db/src/polls.rs:325-428 | Any step other than an edit or refresh of the poll leaves its rows and totals alone, unless it is a vote in it while it is not closed and strictly before its deadline |
| `PollBallots.ClosedPollIsFrozen` | crates/db/src/polls.rs:582-686 | Once closed, tallies, voters and vote rows stay the same in every continuation without an edit or refresh of the poll |
| `PollBallots.AcceptedIff` | crates/db/src/polls.rs:333-397 | A vote is accepted exactly under one order-free conjunction of conditions |
| `PollBallots.VotesCommute` | crates/db/src/polls.rs:325-428 | Accepted votes of different voters are accepted in either order with the same outcome, up to the time of the last change |
| `PollBallots.DeliveriesInAnyOrder` | crates/db/src/polls.rs:307-323 | Distinct valid choices delivered one by one are all accepted and leave tallies and rows that do not depend on their order |
| `PollBallots.SeparateVotesEqualBatch` | crates/db/src/polls.rs:297-323 | In a multiple-choice poll separate deliveries give the same counters and voter count as one vote with the same set of choices, in any order and with repetitions |
| `PollEffects.AcceptedVoteIsRecorded` | crates/db/src/polls.rs:398-427 | After an accepted vote with choices below 2^31 the voter has a ballot at a position exactly if there was one or it is one of the numbers chosen; exactly those options of the poll count one vote more and no other slot or title changes; the voter count grows by one for a first ballot; no other poll, notification or job changes |
| `PollEffects.VoteIsAnswered` | crates/db/src/polls.rs:333-397 | A vote is answered with the first of eight objections, each said from the rows and the choices as numbers, and accepted exactly when there is none |
| `PollEffects.AcceptedChoicesAreSmall` | crates/db/src/polls.rs:382-389 | A choice that wraps round in the signed column is never accepted |
| `PollEffects.ChoiceIsCongruent` | crates/db/src/polls.rs:402 | The position of a choice is the signed 32-bit number congruent to it |
| `PollEvents.EveryVoteIsHandled` | crates/db/src/polls.rs:297-428 | At any moment of any run from empty tables the next local vote is turned away without effect for its first objection, or recorded under the numbers it names and announced |
| `PollEvents.VoteEvents` | crates/server/src/polls.rs:144-167 | A local request is the account's vote and a delivery the actor's vote in a local poll; an accepted one leaves an update due in three minutes, and nothing when totals are hidden or the poll is remote |
| `PollEffects.ValidationFindsFault` | crates/db/src/polls.rs:123-155 | Validation returns the first fault: not 2 to 4 options, a duration outside 300 to 2629746 seconds, a blank title or one of more than 50 graphemes, two titles alike after trimming |
| `PollEffects.CreatedPollIsStored` | crates/db/src/polls.rs:158-192 | Creation fails on the first fault or a used key; else the poll row, the options numbered from zero with no votes and the job of the deadline are as given and nothing else changes |
| `PollEffects.EditIsAnswered` | crates/db/src/polls.rs:431-491 | An edit removes the status's poll, fails on the first fault, rewrites every field of the poll there is, or creates one; options, votes and the voter count are reset exactly when a title or the mode differs |
| `PollEffects.QuestionIsStored` | crates/db/src/polls.rs:494-579 | A question is refused for its number of options or a count beyond 63 bits; else the one poll of its status, new or existing, has the question's voter count (none if it has none), mode, times, titles and counts, and the job five minutes after its end is requested |
| `PollEffects.ExpiryIsAnswered` | crates/db/src/polls.rs:582-686 | An expiry attempt names the time to come back at, does nothing for a notified poll, fails if someone to be told has a row, or closes the poll at its closing time, else its deadline, else now, and tells exactly the local voters and the author of a local status |
| `PollEvents.CreateEvent` | crates/db/src/polls.rs:158-192 | In a run a creation stores the poll or changes nothing |
| `PollEvents.EditEvent` | crates/db/src/polls.rs:431-491 | In a run an edit acts on the poll of its status or changes nothing |
| `PollEvents.RefreshEvent` | crates/db/src/polls.rs:494-579 | In a run an acceptable question is stored for the poll of its status and any other changes nothing |
| `PollEvents.HandlerEvent` | crates/server/src/polls.rs:262-285 | The handler of an expiration job commits the expiry, with an update due at once for a local poll, or leaves the tables alone; it fails exactly when publishing fails or someone was told already |
| `PollEvents.ClaimEvent` | crates/db/src/lib.rs:21393-21452 | Exactly an uncompleted job that is due can be claimed, and only its claim changes |
| `PollEvents.FinishEvent` | crates/db/src/lib.rs:21517-21563 | The holder of the lease completes the job or counts the attempt and puts it off; anyone else changes nothing |
| `PollEvents.RetriesBackOff` | crates/db/src/lib.rs:21649-21653 | The first retry comes after one second and each delay is twice the one before, up to an hour |
| `PollEvents.UpdateIsAsked` | crates/db/src/polls.rs:706-732 | An update request brings the pending job forward if it is later, or adds one |
| `PollEffects.EnqueueAsks` | crates/db/src/lib.rs:21356-21390 | Enqueueing changes nothing while an uncompleted job has the key, and else adds one fresh job at the end |
| `PollRefresh.RefreshWipesVotes` | crates/migration/src/m20260701_000077_create_polls.rs:49-50 | The exact vote and option tables after any refresh: no vote of the poll survives, other polls are untouched |
| `PollRefresh.VotesSurviveRefreshIff` | crates/db/src/polls.rs:493-535 | Votes survive a refresh if and only if there were none |
| `PollRefresh.VotesSurviveEditIff` | crates/db/src/polls.rs:456-472 | Votes survive a local edit if and only if the choices and the mode stay or there were no votes |
| `PollRefresh.ComparisonIsAgainstTrimmedTitles` | crates/db/src/polls.rs:516-520 | What the comparison decides after a refresh: unchanged exactly when the new titles are the stored ones trimmed, so a question with padded titles counts as changed against itself |
| `PollRefresh.RefreshIsIdempotent` | crates/db/src/polls.rs:494-579 | Refreshing twice with the same question equals refreshing once, up to the time of the change |
| `PollRefresh.RemovedDeadlineLetsOldJobClose` | crates/db/src/polls.rs:594-676 | After a refresh without deadline any remaining job closes the poll at the moment it runs |
| `PollUpdates.UpdatesCoalesce` | crates/db/src/polls.rs:706-732 | Over any requests and completions there is at most one uncompleted update job per poll, due at the earliest time requested since the last completion |
| `PollUpdates.OneUpdatePerPoll` | crates/db/src/polls.rs:706-732 | In every run of the whole system at most one uncompleted update job exists per poll |
| `PollUpdates.VoteLeavesUpdate` | crates/server/src/polls.rs:150-167 | Every committed vote in a local poll with visible totals leaves an uncompleted update job due within three minutes |
| `PollUpdates.ExpiryLeavesUpdate` | crates/server/src/polls.rs:271-276 | Every expiry of a local poll leaves one that is due at once |
| `PollUpdates.AnnouncementKeptIff` | crates/db/src/lib.rs:21356-21390 | A vote's request survives the next completion if and only if the pending job was not one already run |
| `PollWitnesses.AbsorptionHappens` | crates/server/src/polls.rs:160-167 | A run from empty tables in which an accepted vote with visible totals leaves no pending update once the worker finishes |
| `PollStore.SortedDistinct` | crates/db/src/polls.rs:347-349 | Sorting and deduplicating the choices: increasing, with the same elements |
| `PollStore.Store.EnqueueJob` | crates/db/src/lib.rs:21356-21390 | Adds a job unless an uncompleted one holds its kind and key |
| `PollStore.Store.EnqueuePollUpdate` | crates/db/src/polls.rs:706-732 | Reuses the pending update job and moves it forward |
| `PollStore.Store.InsertOptionRows` | crates/db/src/polls.rs:763-772 | Inserts trimmed titles at 0..n-1, checking key and count of each row, and succeeds exactly when all counts fit the signed column |
| `PollStore.Store.ReplaceOptionRows` | crates/db/src/polls.rs:754-774 | Deletes options with their votes, then inserts the new ones |
| `PollStore.Store.CheckVote` | crates/db/src/polls.rs:333-397 | Reports the first check a vote fails, in the original's order |
| `PollStore.Store.Vote` | crates/db/src/polls.rs:325-428 | Inserting row by row ends in the specified tables or, on any error, in the old ones |
| `PollStore.Store.CreateLocal` | crates/db/src/polls.rs:158-192 | Creation reaches the specified tables or rolls back with the specified error |
| `PollStore.Store.ReplaceLocal` | crates/db/src/polls.rs:431-491 | The same for replacing or removing a status's poll |
| `PollStore.Store.InsertRemote` | crates/db/src/polls.rs:546-575 | The branch for a new poll reaches the specified tables exactly when its id is free and all counts fit |
| `PollStore.Store.RefreshExisting` | crates/db/src/polls.rs:510-544 | The branch for an existing poll reaches the specified tables exactly when all counts fit |
| `PollStore.Store.UpsertRemote` | crates/db/src/polls.rs:494-579 | The same for inserting or refreshing a remote poll |
| `PollStore.Store.Expire` | crates/db/src/polls.rs:582-686 | The same for expiry, with the notifications inserted one by one against the unique key |
| `ScheduledPolls.ScheduledStore.Create` | crates/db/src/polls.rs:195-219 | Storing title by title reaches the specified rows, or fails without a change exactly on an invalid poll or a used id |
| `ScheduledPolls.ShelvedIsStored` | crates/db/src/polls.rs:201-217 | The specified rows are the parameters and the trimmed titles at 0..n-1, other schedules untouched |
| `ScheduledPolls.ScheduledRoundTrip` | crates/db/src/polls.rs:195-246 | A stored poll loads as the trimmed input, every other one as before |
| `ScheduledPolls.StoredValidatesAlike` | crates/db/src/polls.rs:123-155 | The trimmed input is valid, or fails with the same error, exactly as the original input does |
| `ScheduledPolls.PublishingStoredIsDirect` | crates/db/src/polls.rs:158-192 | Creating a poll from the trimmed input gives the same tables as creating it from the original input |
| `ScheduledPublication.PublishedAsSubmitted` | crates/server/src/statuses.rs:1573-1625 | A poll submitted for a schedule, read after any run and written after any other, commits what creating the submitted input at the time of the write commits and deletes the schedule, or changes nothing when that creation fails or the status row exists |
| `ScheduledPublication.PublishesIff` | crates/server/src/statuses.rs:885-905 | Whether a write publishes depends on what was loaded, the status rows and the poll tables, and not on the schedule table |
| `ScheduledPublication.PublishedOncePerRow` | crates/db/src/lib.rs:11183-11200 | However many attempts are under way, a status is published at most once plus once for each time its row was destroyed |
| `ScheduledPublication.PublishedAtMostOnce` | crates/db/src/lib.rs:11183-11200 | In every run that keeps status rows a status is published at most once |
| `ScheduledPublication.StalePublicationIff` | crates/server/src/statuses.rs:1573-1625 | A write publishes a schedule that is gone or not due if and only if the schedule was removed, or last moved to a time still to come, between the attempt's read and its write |
| `ScheduledPublication.GoneIsNotPublished` | crates/server/src/statuses.rs:1573-1577 | A schedule that is gone is never published by an attempt that reads after it went |
| `ScheduledPublication.RunKeeps` | crates/db/src/polls.rs:222-246 | Until its schedule goes, a stored poll loads unchanged through submissions, reads, writes, cancellations and rescheduling |
| `ScheduledWitnesses.CancelledIsPublished` | crates/db/src/lib.rs:14596-14620 | A run from an empty outbox in which a schedule cancelled between read and write is published |
| `ScheduledWitnesses.RescheduledIsPublishedEarly` | crates/db/src/lib.rs:14544-14593 | A run in which a schedule moved between read and write is published before its new time |
| `ScheduledEffects.SubmitEvent` | crates/db/src/polls.rs:195-219 | A schedule is stored with its poll's parameters and trimmed titles, unless an id is taken or the poll has a fault; nothing else changes |
| `ScheduledEffects.ReadEvent` | crates/server/src/statuses.rs:1573-1598 | A read finds nothing to do, a status that is there already, or the schedule and poll to write, and changes no table |
| `ScheduledEffects.WriteIsAnswered` | crates/server/src/statuses.rs:885-905 | A write is turned away for a fault, rolled back for a taken id, or inserts the status, creates the poll and deletes the schedule |
| `ScheduledEffects.WriteEvent` | crates/server/src/statuses.rs:1616-1638 | A write that is turned away is followed by a cancellation, and any other ends the attempt |
| `ScheduledEffects.CancelEvents` | crates/db/src/lib.rs:14596-14620 | Cancelling deletes exactly the schedule and its stored poll and publishes nothing |
| `ScheduledEffects.OtherEvents` | crates/db/src/lib.rs:14544-14593 | Rescheduling changes the time of one schedule only; deleting marks a status row and purging removes it |
| `InstanceRules.RuleTable.CreateRule` | crates/db/src/reports.rs:131-149 | Appends after the last active rule or fails without a change; the unique index holds |
| `InstanceRules.RuleTable.FindNextPosition` | crates/db/src/reports.rs:134-139 | One more than the largest active position, saturating, or zero |
| `InstanceRules.RuleTable.UpdateRule` | crates/db/src/reports.rs:152-170 | Changes the text of an active rule and nothing else |
| `InstanceRules.RuleTable.DiscardRule` | crates/db/src/reports.rs:173-190 | Retires an active rule and nothing else |
| `InstanceRules.RuleTable.Place` | crates/db/src/reports.rs:209-227 | One pass of checked position writes, the unique index holding after each of them |
| `InstanceRules.RuleTable.ReorderRules` | crates/db/src/reports.rs:193-229 | Both passes reach the specified order or everything is rolled back |
| `InstanceRules.EveryWriteKeepsIndex` | crates/migration/src/m20260701_000076_create_reports_and_instance_rules.rs:25-26 | After any number of writes of either pass, active positions are unique and in range |
| `RuleOrder.ReorderSucceedsIff` | crates/db/src/reports.rs:193-229 | A reorder succeeds if and only if it names every active rule once, the temporary positions do not saturate, and no rule holds the temporary position of one ordered before it; which error otherwise |
| `RuleOrder.ReorderResult` | crates/db/src/reports.rs:218-229 | The rules are listed in exactly the supplied order at 0..n-1; nothing but active positions changed |
| `RuleOrder.RoomyReorder` | crates/db/src/reports.rs:208-217 | With all active positions below 1,000,000 every complete order is accepted |
| `RuleOrder.CrampedReorder` | crates/db/src/reports.rs:208-217 | A rule at 1,000,000 makes one order of two rules fail and the other succeed |
| `RuleOrder.ListingIsUnique` | crates/db/src/reports.rs:119-128 | There is only one list of active rules by position |
| `RuleOrder.RunKeepsIndex` | crates/db/src/reports.rs:131-229 | In every run active positions stay unique and within the column's range |
| `RuleOrder.StepEditsList` | crates/db/src/reports.rs:119-229 | Each step acts on the advertised list as an append, a removal or a replacement of the order |
| `RuleOrder.RunEditsList` | crates/db/src/reports.rs:119-229 | In every run the advertised list is the one obtained by appending, removing and reordering a plain list |
| `RuleOrder.CreateSucceedsIff` | crates/db/src/reports.rs:131-149 | Adding fails exactly on a bad text, a used id or a rule at the largest i32 position |
| `RuleOrder.PositionsStayBelow` | crates/db/src/reports.rs:131-229 | In every run every position is below the rules at the last reorder plus the rules added since |
| `RuleOrder.ReorderAlwaysWorksInRoomyRuns` | crates/db/src/reports.rs:193-229 | In every run in which that bound stays at most 1,000,000 every complete order is accepted |
| `RuleOrder.ContiguousWithoutDiscards` | crates/db/src/reports.rs:131-229 | Without discards positions stay exactly 0..n-1, with n that bound, so the bound is attained |
| `RuleOrder.ReorderIsContiguous` | crates/db/src/reports.rs:218-228 | After any reorder positions are exactly 0..n-1 |
| `RuleOrder.DiscardKeepsContiguityIff` | crates/db/src/reports.rs:411-417 | A discard keeps the positions contiguous if and only if it takes the last rule |
| `RuleEffects.AddedRule` | crates/db/src/reports.rs:131-149 | A rule is refused for its text, a used id or a rule at position 2147483647; else it is stored trimmed, one after the last shown rule or at zero, and no other rule changes |
| `RuleEffects.RetextedRule` | crates/db/src/reports.rs:152-170 | A shown rule gets the trimmed text of 1 to 300 characters and keeps its position; nothing else changes |
| `RuleEffects.RetiredRule` | crates/db/src/reports.rs:173-190 | A shown rule is retired with its text and position; nothing else changes |
| `RuleEffects.CompleteOrderIff` | crates/db/src/reports.rs:193-207 | An order is accepted for reordering exactly when it names every shown rule, nothing else and nothing twice |
| `RuleEffects.RearrangedRules` | crates/db/src/reports.rs:193-229 | A complete order is refused exactly for more than 2147483648 rules or a rule in the way among the positions from a million on; else each rule has its index as position and its old text |
| `Reports.Hydrate` | crates/db/src/reports.rs:474-538 | Loading any distinct reports together gives what loading each alone gives, for every order of ties in the query answers; it fails exactly when an account reference is inconsistent |
| `Reports.PartIsOwnRows` | crates/db/src/reports.rs:482-491 | In any answer ordered by position, one report's rows are its own rows by position |
| `Reports.CollectStatuses` | crates/db/src/reports.rs:492-505 | The evidence map holds for each report its statuses in the order of the answer |
| `Reports.CollectSnapshots` | crates/db/src/reports.rs:506-512 | The same for the rule snapshots |
| `Reports.AccountRoundTrip` | crates/db/src/reports.rs:540-555 | Storing an account in two columns and reading it gives the account |
| `ReportStore.ReportTable.TakeSnapshots` | crates/db/src/reports.rs:429-454 | The current texts of the named rules in the order named, or an error if one is unknown or discarded |
| `ReportStore.ReportTable.InsertEvidence` | crates/db/src/reports.rs:264-278 | Row-by-row insertion succeeds exactly when no status is named twice |
| `ReportStore.ReportTable.InsertSnapshots` | crates/db/src/reports.rs:456-472 | Row-by-row insertion succeeds exactly when no rule is named twice |
| `ReportStore.ReportTable.Create` | crates/db/src/reports.rs:232-282 | Creation reaches the specified tables or rolls back with the specified error |
| `ReportStore.ReportTable.Update` | crates/db/src/reports.rs:338-367 | The same for replacing category and snapshots |
| `ReportStore.CreateThenFind` | crates/db/src/reports.rs:232-294 | A created report loads with the submitted accounts, category, comment, forwarding mark and activity id, its statuses in order, and each named rule's text at that moment in order; it is unassigned and unresolved |
| `ReportStore.UpdateThenFind` | crates/db/src/reports.rs:338-367 | An updated report loads with the new category and the new rules' texts in order, and with everything else as before |
| `ReportEffects.FilingIsAnswered` | crates/db/src/reports.rs:232-282 | A report is refused for the first complaint: a comment over 1000 characters, an unknown rule, a violation without a rule, a used id or activity, a status or rule named twice; else exactly its rows are added |
| `ReportEffects.ReclassifyingIsAnswered` | crates/db/src/reports.rs:338-367 | Reclassifying is refused for the first such complaint; else the category and the snapshots of this report are replaced and nothing else changes |
| `ReportEffects.MarksAreKept` | crates/db/src/reports.rs:370-409 | Assigning and resolving replace one mark of one report, and an unknown report changes nothing |
| `ReportEffects.ConsistentIff` | crates/db/src/reports.rs:547-555 | A row loads exactly when each account is in exactly one of its two columns |
| `ReportEffects.FileEvent` | crates/db/src/reports.rs:232-282 | In a run a report is filed or nothing happens |
| `ReportEffects.ReclassifyEvent` | crates/db/src/reports.rs:338-367 | In a run a report is reclassified or nothing happens |
| `ReportRuns.ViolationsNameARule` | crates/db/src/reports.rs:236-246 | In every run each violation report loads with at least one rule, and no comment exceeds 1000 characters |
| `ReportRuns.StoredReportIsStable` | crates/db/src/reports.rs:172-190 | In every continuation a stored report loads with the same accounts and statuses, and with the same rule texts until it is itself reclassified |
| `Sitemap.PagesCoverExactly` | crates/db/src/search_discovery.rs:97-147 | For any rows and any positive limit, the pages of the advertised cursors in order are exactly the sorted eligible rows |
| `Sitemap.PageIsAsAdvertised` | crates/db/src/search_discovery.rs:97-110 | Each page starts at its cursor, has between one and `limit` eligible rows, and its advertised time is the latest on it |
| `Sitemap.OnPageIff` | crates/db/src/search_discovery.rs:131-147 | A row is on a cursor's page exactly when fewer than `limit` rows lie between them |
| `Sitemap.StaleIndexCovers` | crates/server/src/search_discovery.rs:41-116 | After any rows became ineligible and rows with larger ids were added, every remaining row is on a page of the old cursors |
| `Sitemap.HidingRemovesRows` | crates/db/src/search_discovery.rs:97-129 | Limiting, suspending, purging or hiding an account takes exactly its profile and its posts out of the eligible rows |
| `Sitemap.ModerationLeavesCovered` | crates/server/src/search_discovery.rs:41-116 | An index read before such a change still leads to every profile and post that remains |
| `Sitemap.CursorsAreStable` | crates/db/src/search_discovery.rs:97-129 | Adding rows with larger ids keeps every advertised cursor in its place |
| `Sitemap.DivisionIsExact` | crates/db/src/search_discovery.rs:97-110 | The quotient and remainder that number chunks and rows satisfy the division identity |
| `SitemapXml.EscapeIsSimultaneous` | crates/server/src/search_discovery.rs:160-167 | The five replacements in sequence equal one simultaneous pass |
| `SitemapXml.EscapeRoundTrip` | crates/server/src/search_discovery.rs:160-167 | Escaping can be undone for every text |
| `SitemapXml.EscapedHasNoMarkup` | crates/server/src/search_discovery.rs:160-167 | Escaped text contains no markup character |
| `SitemapXml.Render` | crates/server/src/search_discovery.rs:72-93 | The loop that pushes onto the body produces the specified document |
| `SitemapXml.PushEntry` | crates/server/src/search_discovery.rs:140-154 | Appends one escaped entry |
| `SitemapXml.DocumentRoundTrip` | crates/server/src/search_discovery.rs:136-154 | Reading a rendered document gives back exactly the listed addresses and times |
| `SitemapCrawl.ServerCrawlListsEverything` | crates/server/src/search_discovery.rs:41-116 | Reading the index, following its addresses and reading the pages lists exactly the eligible profiles and then the eligible posts, each once, in id order |
| `SitemapCrawl.CrawlListsEverything` | crates/server/src/search_discovery.rs:41-116 | The same for any two documents that can be read |
| `SitemapCrawl.StaleCrawlFinds` | crates/server/src/search_discovery.rs:41-116 | A crawler with an older index still finds the current entry of every row that remains |
| `SitemapCrawl.FetchChunk` | crates/server/src/search_discovery.rs:72-116 | The address advertised for a chunk is routed, decoded and answered with the page from that cursor on |
| `SitemapCrawl.KeyOrderIsByteOrder` | crates/db/src/search_discovery.rs:97-147 | Ordering rows by key is ordering their ids byte by byte |
| `SitemapCursor.CursorIff` | crates/server/src/search_discovery.rs:118-126 | A path segment decodes to an id if and only if it is the one advertised for that id |
| `SitemapCursor.BytesOfDigits` | crates/server/src/search_discovery.rs:118-120 | Encoding bytes and decoding them gives the bytes, for any length |
| `SitemapEffects.CrawlListsExactly` | crates/server/src/search_discovery.rs:41-116 | A crawl lists exactly the profiles that are discoverable and not limited, suspended or purged, and then exactly the posts that are public, not sensitive, not deleted and of such a profile, each once, in id order, under its address below the configured base and with its own time |
| `SitemapEffects.HidingTakesEntryOut` | crates/db/src/search_discovery.rs:112-129 | Making a listed post non-public, sensitive or deleted takes exactly its entry out of the crawl |
| `SitemapEffects.ChunkIsAdvertised` | crates/server/src/search_discovery.rs:57-68 | A chunk is advertised below the base as the directory of its kind, the cursor of its sixteen bytes and .xml, with its time |
| `SitemapEffects.ServesIff` | crates/server/src/search_discovery.rs:72-126 | Exactly the paths of sixteen-byte ids in the two directories are served, each with the page from that id on |
| `SitemapEffects.TrimIsBase` | crates/server/src/search_discovery.rs:128-134 | Trimming the configured address takes off all slashes at its end and nothing else |
| `SitemapEffects.EscapeTable` | crates/server/src/search_discovery.rs:160-167 | The five special characters are written as their entities and every other character as itself |
| `SitemapEffects.EscapeByCharacter` | crates/server/src/search_discovery.rs:160-167 | Escaping two texts one after the other is escaping each |
| `SitemapEffects.AlphabetIsUrlSafe` | crates/server/src/search_discovery.rs:118-120 | The 64 letters are those of section 5 of RFC 4648 |
| `SitemapEffects.GroupsKeepValue` | crates/server/src/search_discovery.rs:118-120 | Each three bytes and their four digits are the same number, and groups follow one another |
| `SitemapEffects.LastGroupKeepsValue` | crates/server/src/search_discovery.rs:118-120 | One or two bytes left over are written with zero bits after them and without padding |
| `SitemapEffects.SmallDocuments` | crates/server/src/search_discovery.rs:52-154 | The literal text of an index and of a page with one entry |
| `NotificationGroups.SameTargetIff` | crates/migration/src/m20260701_000064_add_notification_groups.rs:26-35 | Under the table's constraint, notifications share a target if and only if they share account, type and status |
| `NotificationGroups.BackfillIsPartition` | crates/migration/src/m20260701_000064_add_notification_groups.rs:23-54 | Exactly the grouped kinds get a group, two get the same one if and only if they share target and bucket, and the notification a group is named after belongs to it |
| `NotificationGroups.GroupIsCloseTogether` | crates/migration/src/m20260701_000064_add_notification_groups.rs:39-43 | Notifications of one group share account, type and target and are less than twelve hours apart |
| `NotificationGroups.SameGroupIff` | crates/migration/src/m20260701_000064_add_notification_groups.rs:43-50 | Distinct groups have distinct ids |
| `NotificationGroups.GroupNamesItself` | crates/migration/src/m20260701_000064_add_notification_groups.rs:45-48 | A group id is the id of the group's own first notification |
| `NotificationGroups.StateNamesLatestGroup` | crates/migration/src/m20260701_000064_add_notification_groups.rs:56-64 | Each state row names the target's latest group, started when its first notification was created and updated when the target's latest one was |
| `NotificationGroups.StatesOnlyForTargets` | crates/migration/src/m20260701_000064_add_notification_groups.rs:56-64 | A target has a state row if and only if it has a grouped notification |
| `GroupRows.SameGroupExactly` | crates/migration/src/m20260701_000064_add_notification_groups.rs:23-50 | Two notifications get the same group if and only if they agree on recipient, kind and status and lie in the same half day counted from the earliest notification like them |
| `GroupRows.GroupIsNamedAfterFirst` | crates/migration/src/m20260701_000064_add_notification_groups.rs:45-54 | Other kinds get no group; a group is named after the first of its notifications by time and then id |
| `GroupRows.StateRowIsExact` | crates/migration/src/m20260701_000064_add_notification_groups.rs:56-64 | A state row names the group of the target's last notification and gives the times of that group's first and last |
| `GroupRows.StateRowIff` | crates/migration/src/m20260701_000064_add_notification_groups.rs:56-64 | A target has a state row exactly when there is a favourite, follow or reblog about it |
| `GroupRows.TargetColumns` | crates/migration/src/m20260701_000064_add_notification_groups.rs:26-30 | The four columns of a target for each kind of notification |
| `TrendCache.TwoLevelsEqualOne` | crates/migration/src/m20260701_000069_create_trend_cache.rs:84-106 | Daily uses are the qualifying status-tag rows and accounts the distinct authors among them; only days with a use have a row |
| `TrendCache.LocalMetricIsDirectCount` | crates/migration/src/m20260701_000069_create_trend_cache.rs:108-126 | A local status has a metric if and only if some interaction concerns it, and its columns are the direct counts over the four tables |
| `TrendCache.RemoteMetricIsDirectCount` | crates/migration/src/m20260701_000069_create_trend_cache.rs:128-144 | The same for remote statuses over their three tables |
| `TrendCache.JoinedIdsAreMetrics` | crates/migration/src/m20260701_000069_create_trend_cache.rs:118-126 | Joining the statuses with the grouped interactions, scanned in any order, yields each status with a metric once |
| `TrendCache.MetricRowsAreUnique` | crates/migration/src/m20260701_000069_create_trend_cache.rs:15-26 | The rows of both metric inserts together respect the table's unique constraint |
| `TrendCache.DirtyHasNoDuplicates` | crates/migration/src/m20260701_000069_create_trend_cache.rs:146-153 | Grouping the days by tag and projecting the metric rows inserts no key twice, and exactly the keys the caches have a row for |
| `TrendCache.UngroupedTagsDistinctIff` | crates/migration/src/m20260701_000069_create_trend_cache.rs:147 | Without the grouping the keys are distinct if and only if no tag is used on two days |
| `TrendCache.SeedMarksEachOnce` | crates/migration/src/m20260701_000069_create_trend_cache.rs:84-153 | Across all statements and for every order of their scans, no key is marked twice, a tag is marked if and only if a qualifying status uses it, a status if and only if it has a metric |
| `TrendRows.ActorRowsAreExact` | crates/migration/src/m20260701_000069_create_trend_cache.rs:84-102 | The per-author row counts the tag rows of public, undeleted statuses of at most eight days that the author published on that day; there is none without a use |
| `TrendRows.DailyRowsAreExact` | crates/migration/src/m20260701_000069_create_trend_cache.rs:104-106 | The daily row counts all such rows and their distinct authors, local and remote apart; there is none without a use |
| `TrendRows.LocalMetricRow` | crates/migration/src/m20260701_000069_create_trend_cache.rs:108-126 | The metric of a local status: its two favourite and two reblog counts and its publication time, for existing statuses with an interaction |
| `TrendRows.RemoteMetricRow` | crates/migration/src/m20260701_000069_create_trend_cache.rs:128-144 | The same for remote statuses over their three tables |
| `AdminModel.AdminConsole.Limit` | crates/server/src/admin.rs:253-290 | Limiting reaches the specified state or fails without a change |
| `AdminModel.AdminConsole.Suspend` | crates/server/src/admin.rs:308-362 | The same for suspending and lifting a suspension, with its guards in order |
| `AdminModel.AdminConsole.SetSuspendedById` | crates/db/src/lib.rs:7838-7914 | The row change with the queued or cancelled cleanup; nothing changes for an id in neither table |
| `AdminModel.AdminConsole.CancelQueued` | crates/db/src/lib.rs:8000-8014 | Exactly the account's cleanups are marked completed |
| `AdminModel.AdminConsole.ActOnReport` | crates/server/src/admin.rs:838-904 | The action and the resolution of the report both happen or neither does |
| `AdminModel.AdminConsole.Settle` | crates/server/src/reports.rs:454-479 | Resolving or reopening a report reaches the specified state or fails without a change |
| `AdminModel.AdminConsole.Delete` | crates/server/src/admin.rs:928-977 | Purging needs a suspension and is logged |
| `AdminRuns.EventEffect` | crates/server/src/admin.rs:253-362 | Every event amounts to one simple change of local accounts, jobs and announcements |
| `AdminRuns.AnAdministratorRemains` | crates/server/src/admin.rs:324-328 | In every serial run that starts with an active administrator one remains |
| `AdminRuns.SuspendAcceptedIff` | crates/server/src/admin.rs:316-333 | Exactly when a suspension, or lifting one, is accepted |
| `AdminRuns.PurgedStaysSuspended` | crates/server/src/admin.rs:329-333 | A purged local account is purged and suspended in every continuation |
| `AdminRuns.LedgerReplaysFlags` | crates/server/src/admin.rs:253-362 | The ledger only grows, and replaying what a run added turns every account's limited and suspended flags before the run into those after it |
| `AdminRuns.AnnouncedPerTransition` | crates/server/src/admin.rs:334-339 | Deletions announced for a local account are exactly its transitions from active to suspended |
| `AdminRuns.NoCleanupForgottenFromStart` | crates/db/src/lib.rs:7849-7870 | In every run from a state with no jobs and nobody suspended, each suspended local account is purged or has an uncompleted cleanup, and uncompleted cleanups are for suspended accounts |
| `AdminRuns.NoCleanupForgotten` | crates/db/src/lib.rs:7849-7870 | Every run that starts in that relation between accounts and cleanups stays in it |
| `AdminRuns.WorkerWaitsFromStart` | crates/db/src/lib.rs:7853-7867 | In every such run from the start, a claimed cleanup that was not cancelled is at least thirty days after the account went from active to suspended |
| `AdminRuns.WorkerWaitsThirtyDays` | crates/db/src/lib.rs:7853-7867 | The same for runs from any state whose cleanups date from the suspensions in force |
| `AdminRuns.CancelledJobStillPurges` | crates/db/src/lib.rs:8017-8031 | A cleanup claimed before a release and a new suspension still purges the account, right after the new suspension |
| `AdminPurges.CompletedIffOvertaken` | crates/db/src/lib.rs:7853-7870 | In every run from a state without suspensions, a claimed cleanup whose account could be purged is completed if and only if the account was suspended again since it was requested, and that suspension began after it was due |
| `AdminPurges.PurgeIsEarlyIff` | crates/db/src/lib.rs:8017-8031 | In every such run the handler of a claimed job purges its account less than thirty days after the suspension in force if and only if the account has an uncompleted cleanup that is not yet due; the handler of a job that was not cancelled is never early |
| `AdminPurges.EarlyPurgeHappens` | crates/db/src/lib.rs:8017-8031 | A run from a state without suspensions that ends with an account purged one microsecond after the suspension in force |
| `AdminEffects.LimitIsAnswered` | crates/server/src/admin.rs:253-290 | Limiting sets the flag of the one account as asked and logs it, or fails for an id that is no local account and no actor still there |
| `AdminEffects.SuspensionIsAnswered` | crates/server/src/admin.rs:308-362 | A suspension is refused for the first of four reasons; else the account is dated, a cleanup queued or all of its cleanups cancelled, the deletion announced for a federated server and the entry logged; all other rows stay |
| `AdminEffects.DeletionIsAnswered` | crates/server/src/admin.rs:928-977 | Deleting fails without a suspension; else a local account is purged and for either kind a purge is logged |
| `AdminEffects.ReportActionIsAnswered` | crates/server/src/admin.rs:838-904 | An action for a report is refused for an unknown report or another target, or fails as the action does; else the action is done, the report is resolved by the actor with its target kept, other reports stay, and the ledger ends in the resolution |
| `AdminEffects.SettlementIsAnswered` | crates/server/src/reports.rs:454-479 | Resolving or reopening changes one report's mark and logs it |
| `AdminEffects.LedgerSettlesReports` | crates/server/src/admin.rs:838-904 | In every run that starts so, each report is resolved by exactly the administrator named by the ledger's last entry that settles it, and open exactly when there is none or it is a reopening |
| `AdminEffects.ResolvedIffLogged` | crates/server/src/admin.rs:891-902 | While nothing was reopened, a report is resolved if and only if the ledger holds a resolution of it |
| `AdminEffects.ClaimEvent` | crates/db/src/lib.rs:7853-7867 | A cleanup can be claimed from thirty days after its request until it is completed |
| `AdminEffects.CleanupEvent` | crates/db/src/lib.rs:8017-8064 | The handler of a claimed cleanup purges its account if it is suspended then, and changes nothing else |

## Left out

- Deleting accounts and statuses, whose cascades remove polls or vote rows without adjusting counters.
- Visibility checks, OAuth scopes, HTTP routing, JSON and form decoding, HTML pages and configuration.
- The delivery jobs for votes on remote polls and the content of the activities that are published.
- Overflow of the 64-bit counters by counting, and of positions by more than 2^31 options, statuses or rules named in one request other than in the reorder itself.
- Timestamps finer than a microsecond, and the rounding they undergo in the database.
- Concurrency inside a transaction: poll, rule and report transactions hold the locks that make them atomic; administrator actions are modelled as serial because the count of active administrators takes no lock.
- `list_moderation_reports` filters and cursors, and the times in rules and reports: they would only add easy members.
- The ledger entries for assigning reports, changing rules and deleting reported statuses; resolving and reopening reports are modelled with theirs.
- Sessions, passwords, tokens and the relationships severed by a suspension.
- The texts of time stamps in sitemaps; they are parameters that must not contain `<`.
- The scores, peaks and decay of trends; only the tables the migration fills are modelled.
- The parts of a scheduled status other than its poll: whether they pass their own checks is a parameter of the write of a publication attempt. The job queue behind the attempts is not part of this model: any number of them may be made at any time. An attempt for an account that is not found ends without a write (crates/server/src/statuses.rs:1592-1595); accounts are not part of this model. Rescheduling is modelled without its daily limit and minimum offset, which only turn requests away.
- SitemapCursor.CursorIff: the decoder is taken to reject unused bits that are set, as the library's default configuration for section 5 of RFC 4648 does.
