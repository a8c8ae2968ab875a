# Verification of the energy community backend

A Dafny model of the parts of the backend whose correctness does not show in any one function, with proofs.
`dafny verify dfyconfig.toml` checks the whole project.

## What is modelled

**Energy data requests.** A community asks the grid operator for meter readings. The notification table is an
append-only log of runs (what was requested), answers and summaries; an answer does not say which run it belongs to.
Five computations replay the log and have to agree.

- `Types`, `AttributionSpec`, `AttributionOnline`, `AttributionWindows`, `Attribution`, `AttributionCuts`: handing
  answers to requests. `TwoPass` is the program's computation per metering point, `Online` the process it stands for.
- `Belonging`: which answers belong to a run and what repeats it, said of the rows; what the summaries, locks, live
  entries and checks mean is stated by it.
- `EnergyRequestRows`: the rows the queries select, and when they attribute like the whole log.
- `Evaluation`, `Locks`, `Live`: the summary of a run, the metering points that may not be requested again yet, and
  the open runs shown in the Messages list.
- `Tracker`, `Request`, `LockSafety`: collecting a run, the request handler (clip, lock, merge, save, send, keep what
  was sent), and safety over all runs of the system.
- `CommunityCache`: the cache with its generation, under any interleaving of readers and writers.
- `CloseProtocol`, `Check`, `CheckedRows`: one summary per run under any interleaving, what a check without error has
  achieved, and which runs it closes.
- `Collapse`, `CollapseSoundness`, `Notifications`: what the Messages list leaves out, why that loses nothing, and the
  batched page against a simple specification of the whole list.

**Settlement interval** (`Settlement`): reading period identifiers, gaps, the change rule, and what it is for.

**Metering points** (`Lifecycle`, `Revocation`): the row's state under the messages of the grid operator, in any order,
and the mails about ended participations.

**Mail** (`MailTemplates`, `MailWorker`): versions and files of a customised mail, and the mail queue with its stop.

Statements of the database are atomic updates of rows, given as functions or classes with the table in a field;
advisory locks, `FOR UPDATE` and mutexes make their critical section one step. Stored JSON is given decoded. Times are
milliseconds or day numbers; the calendar is a parameter that numbers days and never runs backwards. Fresh ids, the
clock, the answers of the database and the result of sending are parameters.

## Where the code and its comments differ

- Lock, live entries and checks are said to attribute alike because they read from the same bound
  (energyrequest/tracker.go:12-21). They agree with one another. They agree with the whole log, however it goes on, if
  and only if no request up to the bound is open and unanswered there (`EnergyRows.WindowAgreesIffNoneWaiting`);
  `EnergyRows.WindowCanMoveAnAnswer` is a log where they do not.
- The Messages list reads nothing for a tenant without a recent run (database/energyRequestDao.go:54-64). That query
  compares the tenant exactly, the evaluation ignoring case. It loses nothing if and only if base.eeg holds no other
  tenant of the community that differs in letter case only (`LiveEntries.ShortcutIsHarmlessIff`); with one,
  `LiveEntries.OtherSpellingIsLost` is a log whose open run is shown by the rows and hidden by the shortcut.
- A saved mail is protected against lost updates by its version number. A reset starts the numbers again:
  `MailTemplates.SaveReplacesWhatWasLoaded` says when the protection holds, `MailTemplates.ResetHidesASave` when not.
- `findEarliestActivation` (model/dtomodel.go:132-147) takes the entry that starts last. It is the one that starts first if
  and only if all entries start at the same time, or none after 1.1.1970 and the first of the list starts first
  (`Lifecycle.LatestStartsFirstIff`); of entries from 1 and 2 it is not (`Lifecycle.LaterIsTaken`).
- `Stop` (services/mailWorker.go:105-138) is said to return the number of jobs that were not sent. The worker may still
  take jobs that were counted, before and after `Stop` returns: the number stays right if and only if no job is on the
  queue when it is counted (`MailWorker.CountIsFinalIffQueueEmpty`), and `MailWorker.CountedJobIsTaken` is a run where it
  does not, although the queue is empty when `Stop` returns.
- A skipped metering point is said to keep its reason whatever the order of the entries (energyrequest/tracker.go:76-79).
  That needs a ranked reason, a request, or one reason only: `Tracker.OrderIsIrrelevantIff`. The reasons the program
  gives have only NOT_FOUND without rank, so for them it holds (`Tracker.KnownReasonsAreConfluent`).
- Uploads are serialised "so the limits hold" (database/mailTemplateDao.go:236-238): of the drafts younger than 24 hours
  (`MailTemplates.FreshDraftsWithin`). All drafts stay within the limits if and only if the older ones leave room, too
  (`MailTemplates.AllDraftsWithinIff`); `MailTemplates.OldDraftsAreNotCounted` is a run where they do not.

## Model

| member | source | states |
|---|---|---|
| Attribution.Attribute | energyrequest/attribution.go:43-103 | For every run row and metering point of the community, the answers that belong to it and whether it is superseded are those of the two-pass specification over all rows, although the code works on shared nodes in two maps. |
| Attribution.SupersedeNodes | energyrequest/attribution.go:61-65 | Exactly the earlier open requests that share a day with the new one get its row as end. |
| Attribution.AddEntry | energyrequest/attribution.go:59-68 | Adding one metering point of a run supersedes and appends in the table and in the index alike. |
| Attribution.OpenAll | energyrequest/attribution.go:48-75 | After the first pass the tables hold the requests of the community's runs and its answers in row order. |
| Attribution.CloseNodes | energyrequest/attribution.go:76-80 | Every request is closed at its run's stored summary, in whatever order the map is walked. |
| Attribution.FindOwner | energyrequest/attribution.go:84-96 | The search ends at the oldest request in whose window the answer lies and that has none, else at the newest. |
| Attribution.HandAnswers | energyrequest/attribution.go:82-101 | The second pass hands every mention of every answer to its owner and changes nothing else. |
| AttributionOnline.TwoPassRefinesOnline | energyrequest/attribution.go:28-103 | On a log with one summary per run the two passes give what the online process gives that opens, supersedes, closes and hands over row by row. |
| AttributionOnline.PrefixStable | energyrequest/attribution.go:43-103 | Appending rows never moves an earlier answer: each request keeps its bounds once set and its answers; only answers of the new rows are added. |
| AttributionWindows.OverlapIsSharedDay | energyrequest/lock.go:73-76 | Two periods overlap if and only if some day lies in both. |
| AttributionWindows.WindowsOfRequests | energyrequest/attribution.go:59-80 | Each request ends at the first later request that shares a day with it; those not superseded are pairwise day-disjoint; it is closed at its run's summary. |
| AttributionWindows.RequestsAreRuns | energyrequest/attribution.go:53-80 | Every request stems from a run row of a tenant of the community that names the metering point, with that period, and is closed at the run's last stored summary. |
| AttributionWindows.RunsHaveRequests | energyrequest/attribution.go:53-68 | Every run row of a tenant of the community that names the metering point has its request. |
| AttributionWindows.AnswerGoesToOldestUnanswered | energyrequest/attribution.go:82-101 | Read off the finished attribution: how many mentions of an answer each request got, namely one for each unanswered request in whose window it lies, oldest first, the rest for the newest. |
| AttributionWindows.OneOwner | energyrequest/attribution.go:82-101 | An answer that names the metering point once goes to exactly one request when some window holds it, the oldest unanswered one, else the newest; otherwise to none. |
| EnergyTypes.FoldIgnoresCase | energyrequest/lock.go:32 | Spellings count as equal if and only if they differ in the case of ASCII letters at most. |
| Belongings.LastDecides | energyrequest/attribution.go:105-136 | Said of the rows: the last answer an attribution gives a run is the answer row that was handed to it and is followed by no other such row; there is none if and only if no row was handed to it. |
| Belongings.RejectedRows | energyrequest/attribution.go:133-136 | A run counts as rejected if and only if the last answer row that belongs to it for the metering point does not accept. |
| Belongings.RepeatedRows | energyrequest/attribution.go:59-68 | A run counts as repeated if and only if a later run row of the community asks for the metering point on one of its days. |
| AttributionCuts.FilteredAlike | energyrequest/attribution.go:48-51 | Dropping rows of other communities, and answers before the community's first run, changes nothing. |
| AttributionCuts.CutKeepsLaterRuns | energyrequest/tracker.go:12-21 | Cutting the log keeps every later run's answers if no request before the cut is open and unanswered there. |
| AttributionCuts.CutKeepsIffNoneWaiting | energyrequest/attribution.go:82-101 | And only then: whatever rows follow, the later runs keep their answers if and only if no request before the cut is open and unanswered. |
| EnergyRows.CheckAndLockAttributeAlike | database/energyRequestDao.go:126-165 | The rows of all tenants and the rows of one community attribute the community's answers alike. |
| EnergyRows.ReadRows | database/energyRequestDao.go:126-165 | Read are exactly the runs and summaries of the last 49 hours and the answers after the first of these runs, in the order of their ids. |
| EnergyRows.OpenRunsAreRead | database/energyRequestDao.go:126-165 | A run is among the rows read until it is 48 hours old, so it is read as long as it can be open, and a day longer. |
| EnergyRows.WindowAttributesLikeLog | database/energyRequestDao.go:131-165 | The rows read attribute like the whole log, for every run after the bound, if no request up to the bound is open and unanswered there. |
| EnergyRows.WindowAgreesIffNoneWaiting | database/energyRequestDao.go:126-165 | The rows read agree with the whole log, however it went on since the bound, if and only if no request up to the bound is open and unanswered there. |
| EnergyRows.WindowCanMoveAnAnswer | energyrequest/tracker.go:12-21 | Without that condition an answer can move: a valid log with an old unanswered run without summary. |
| Evaluation.Latest | energyrequest/summary.go:126-140 | Only the last belonging answer decides. |
| Evaluation.Evaluate | energyrequest/summary.go:117-154 | The summary lists each metering point by its outcome, in order; done if and only if none is left without answer or the run is 24 hours old. |
| Evaluation.SummaryPartitionsRun | energyrequest/summary.go:124-153 | Every requested metering point is in exactly one of accepted, rejected, unanswered and superseded, that of its last belonging answer; the four add up to the number requested. |
| Evaluation.SelectInOrder | energyrequest/summary.go:124-152 | Each list keeps the order of the run. |
| Evaluation.SummaryTellsRows | energyrequest/summary.go:117-154 | What an evaluated summary says, read off the rows alone: a metering point is accepted or rejected with its codes by the last answer row that belongs to the run, whatever came before; without one it is superseded if and only if a later run of the community asks for one of its days, else without answer; each list keeps the order of the run and the sizes add up. |
| Evaluation.OutsiderIsUnanswered | energyrequest/summary.go:117-154 | A run of a tenant that is none of the community has every metering point without answer. |
| Evaluation.DoneIsMonotone | energyrequest/summary.go:117-154 | On longer logs and later clocks the unanswered only become fewer, and a run that can be closed stays so. |
| Evaluation.StoredSummaryStaysRight | energyrequest/attribution.go:76-88 | If no row lies between the rows evaluated and the stored summary, every longer log evaluates to the same accepted and rejected. |
| Locks.NewLocks | energyrequest/lock.go:27-59 | A metering point has a lock if and only if a run row of the tenant younger than one hour names it and the last answer row that belongs to that run does not reject; the lock has the period of the entry and ends when the run is one hour old. |
| Locks.Until | energyrequest/lock.go:63-71 | The latest positive end of the locks that share a day with the period, zero when none of them has a positive end. |
| Locks.FreeMeansNoBlockingRun | energyrequest/lock.go:22-71 | A lock shares a day with a period if and only if a recent run of the tenant that was not rejected does. |
| Locks.UnrejectedRunLocks | energyrequest/lock.go:22-59 | A run of the last hour without a belonging answer, or whose belonging answers all accept, locks every period that shares a day with its own. |
| Locks.SummariesIn | energyrequest/attribution.go:116-131 | For each run id the row of its last stored summary. |
| LiveEntries.Live | energyrequest/live.go:19-50 | One entry, in row order, for exactly the run rows of the tenant that get a summary, have none in the rows and are younger than 24 hours, each with the summary that tells the rows; hidden are exactly the answer rows that belong to these runs. |
| LiveEntries.LiveShowsRows | energyrequest/live.go:19-50 | The live entries are those of exactly the open runs among the rows, each with the summary that tells the rows. |
| LiveEntries.HiddenBelong | energyrequest/live.go:44-48 | An answer is hidden if and only if it belongs to such a run for one of its metering points. |
| LiveEntries.ShortcutShowsTheSame | database/energyRequestDao.go:54-64 | Without a recent run of the tenant, no rows show the same live entries as the community's rows if and only if no open run is stored under another spelling of the tenant. |
| LiveEntries.ShortcutIsHarmlessIff | database/energyRequestDao.go:212-226 | Over all logs and times the shortcut loses nothing if and only if the tenant's community holds no other tenant that differs from it in letter case only. |
| LiveEntries.OtherSpellingIsLost | database/energyRequestDao.go:54-64 | With such a tenant: any log with one fresh run of it has an open run of the tenant that the shortcut hides. |
| Tracker.RunBuilder.DropSkipped | energyrequest/tracker.go:127-135 | The entries of the metering point are gone, the others stay in order. |
| Tracker.RunBuilder.AddMeter | energyrequest/tracker.go:46-60 | The new lists are those of one `Add`: one entry with the widest period, none skipped. |
| Tracker.RunBuilder.SkipUntil | energyrequest/tracker.go:84-103 | The new lists are those of one `SkipUntil`. |
| Tracker.RunBuilder.FitPeriod | energyrequest/tracker.go:64-74 | The period begins with the first entry that begins and ends with the last that ends, or stays without any. |
| Tracker.RunBuilder.Save | energyrequest/tracker.go:142-158 | What is not found is skipped, nothing is stored without a requested metering point, one distinct id means no summary. |
| Tracker.RunBuilder.KeepSent | energyrequest/tracker.go:165-195 | What was sent stays with the hull of its sent parts; the row is deleted if nothing is left. |
| Tracker.RecordFolds | energyrequest/tracker.go:46-125 | After any calls both lists are duplicate-free and disjoint, and each metering point's entry follows from the calls for it alone. |
| Tracker.RecordIsConfluent | energyrequest/tracker.go:76-125 | The entry of a metering point depends only on which calls were made, neither on their order nor on their number, if a request or a ranked reason is among them or at most one reason without rank. |
| Tracker.KnownReasonsAreConfluent | energyrequest/tracker.go:76-125 | With the reasons the program gives this always holds. |
| Tracker.OrderIsIrrelevantIff | energyrequest/tracker.go:109-125 | And only then: otherwise a reordering of the same calls gives the metering point another entry. |
| Tracker.EntrySaysWhatWasCalled | energyrequest/tracker.go:46-103 | A requested entry is the hull of its calls, a skipped one the least weak reason with its latest time. |
| Tracker.FirstReasonIsKept | energyrequest/tracker.go:105-125 | Of the reasons given for a metering point that is not requested the first of COMPLETE, ALREADY_REQUESTED, NOT_REGISTERED, NO_ACTIVE_PERIOD, NOT_ACTIVE_IN_PERIOD, NOT_ASSIGNED is kept, with the latest time given for it. |
| Tracker.UnrankedGivesWay | energyrequest/tracker.go:105-125 | NOT_FOUND and unknown reasons give way to each of these. |
| Tracker.SavedListsEachRequested | energyrequest/tracker.go:142-152 | After saving every requested id is in exactly one of the two lists. |
| Tracker.ReducedKeepsSent | energyrequest/tracker.go:169-182 | Exactly the metering points with a sent part stay, each with the hull of its sent parts. |
| Tracker.DeletedIffNothingSent | energyrequest/tracker.go:186-191 | The run is deleted if and only if none of its metering points was sent. |
| ValueRequest.CheckParticipations | api/meteringPointController.go:480-517 | Every participation gets the reason of the first static check that fails, else its period. |
| ValueRequest.CheckedWithinBoth | api/meteringPointController.go:498-515 | A participation is requested only for days on which it is active and that were asked for. |
| ValueRequest.SelectFree | api/meteringPointController.go:535-547 | Exactly the participations no lock shares a day with go on; the others are recorded. |
| ValueRequest.SkipCallMeans | api/meteringPointController.go:481-547 | A participation is recorded with a reason and a time if and only if it is passed over for them: the first static check that fails, or runs of the last hour that hold one of its days, the last of them until then. |
| ValueRequest.SortParts | api/meteringPointController.go:561 | The parts sorted by start, none lost or added. |
| ValueRequest.Merge | api/meteringPointController.go:562-574 | Sorted parts give periods at least one free day apart that cover exactly the days of the parts and begin and end where parts do; also for periods that end before they begin, of which none arises from parts that do not. |
| ValueRequest.Group | api/meteringPointController.go:550-557 | Each metering point with its parts in order, and the metering points, each once, in the order of their first part. |
| ValueRequest.Plan | api/meteringPointController.go:558-579 | The planned requests are the merged parts of each metering point, and the run records them. |
| ValueRequest.PlanAvoidsLock | api/meteringPointController.go:533-579 | Merging brings no locked day back: a planned request shares a day only with what a free part shares a day with. |
| ValueRequest.PlanIsDisjoint | api/meteringPointController.go:558-579 | Two planned requests of a metering point share no day. |
| ValueRequest.UnlockedAreWanted | api/meteringPointController.go:441-547 | A day is planned for a metering point if and only if an assigned or moved, registered participation is active on it, the day lies in the period given for the metering point, in the whole period when none is given, and no unrejected run of the last hour shares a day with what is asked of that participation. |
| ValueRequest.LockAndPlan | api/meteringPointController.go:518-579 | Planned are exactly the days asked for that no unrejected run of the last hour holds back, something for each such participation, no two parts on one day; the calls made for the others are exactly those for the reasons they are passed over for. |
| ValueRequest.AddsAreWidest | energyrequest/tracker.go:44-60 | The recorded entry of a metering point is the hull of its planned requests. |
| ValueRequest.SavePlanned | api/meteringPointController.go:580-593 | A planned run is stored before sending exactly when it requests something, what is not found is recorded, and the period is fitted to the entries when asked for. |
| ValueRequest.RecordTellsWhy | energyrequest/tracker.go:46-125 | A run that was collected by the calls of the handler has a metering point as requested if and only if a part of it is sent, else with the reason that tells most of those it is passed over for, and its latest time. |
| ValueRequest.RequestValues | api/meteringPointController.go:451-593 | The handler up to the stored run, for any request: exactly the days asked for that no run holds back are sent, disjoint; the run names each metering point once, with the hull of its parts or with the reason it is passed over for (COMPLETE only for one that is not asked for, NOT_FOUND only for want of any other); it is stored exactly when something is sent. |
| ValueRequest.SendParts | api/meteringPointController.go:595-605 | Exactly the requests whose sending succeeded, in order, are recorded as sent. |
| ValueRequest.SendAndKeep | api/meteringPointController.go:595-615 | After a failed send the run names exactly the metering points with a sent part, each with its hull, and is deleted if and only if nothing was sent. |
| LockSafety.HandlerFits | api/meteringPointController.go:518-593 | What the handler promises about its plan lets it take the lock check and the saving of its run as steps of the state machine. |
| LockSafety.StepKeeps | api/meteringPointController.go:518-611 | Every step of requests, sends, row edits, messages and other instances keeps the invariant. |
| LockSafety.NoLockedPartIsSent | energyrequest/lock.go:22-27 | In every run of the system a day of a part sent for a metering point is also a day of an earlier sent part of the tenant only if that run was one hour old at the lock check, or the rows the check read hold an answer row that rejects, belongs to that run for the metering point and is followed by no other such row. |
| CommunityCaching.CommunityCache.Look | database/energyRequestDao.go:47-50 | The entry of the tenant and the generation it is read at. |
| CommunityCaching.CommunityCache.Store | database/energyRequestDao.go:74-80 | Rows read at the current generation become the entry of the tenant, rows read at an older one change nothing. |
| CommunityCaching.CommunityCache.ClearAll | database/energyRequestDao.go:82-87 | No entries, a new generation. |
| CommunityCaching.StepKeeps | database/energyRequestDao.go:46-124 | Every step of readers, writers and clears keeps the invariant. |
| CommunityCaching.CachedEntriesHoldClearedWrites | database/energyRequestDao.go:27-87 | Under any interleaving a cached entry was read from a table that has every write of this instance whose clear has completed. |
| CloseProtocol.StepKeeps | database/energyRequestDao.go:255-287 | Saving, editing, deleting, answering and closing keep the invariant. |
| CloseProtocol.InvMeans | energyrequest/tracker.go:215-262 | The invariant is what every evaluation relies on: ascending rows, one summary per run, summaries after their runs. |
| CloseProtocol.OneSummaryAlways | database/energyRequestDao.go:253-287 | Under any interleaving of checks and instances a run id has one summary at most, in a later row than the run. |
| CloseProtocol.ReachesKeeps | database/energyRequestDao.go:255-287 | Nothing takes a stored summary away. |
| Checking.LookUp | energyrequest/tracker.go:239-252 | The attribution used for a run is that of its community, with the tenants of the community's first open run and those the database names. |
| Checking.EvaluateRow | energyrequest/tracker.go:254-257 | The summary and whether it is due are those of the evaluation on the rows read. |
| Checking.Table.SummaryExists | database/energyRequestDao.go:266-270 | Whether a later row is a summary of the run. |
| Checking.Table.CloseEnergyRequest | database/energyRequestDao.go:255-287 | One atomic step: the summary is appended as a message of the tenant unless a later row holds one of the run; an error changes nothing. |
| Checking.CheckRow | energyrequest/tracker.go:231-257 | One row adds exactly its due closing, if any. |
| Checking.Check | energyrequest/tracker.go:218-262 | Whatever happens in between, a check without error has attempted exactly the due closings of the rows it read, in order, and each attempted run has a summary. |
| Checking.AgedRunsAreClosed | energyrequest/tracker.go:218-262 | After a check without error every run it read that gets a summary and is 24 hours old has one. |
| CheckedRows.AttemptsTellRows | energyrequest/tracker.go:218-262 | Said of the rows it read: a check attempts to close exactly the run rows that get a summary, have none and are due (24 hours old, or each metering point answered or requested again), in row order, each under its tenant and with the summary that tells the rows, by the tenants of the first such run of its community. |
| Collapsing.Collapser.AddRuns | energyrequest/collapse.go:61-77 | Run rows not known yet are added, the first row of an id wins. |
| Collapsing.Collapser.AddSummaries | energyrequest/collapse.go:80-90 | The row of each stored summary with a run id, the last one wins. |
| Collapsing.Collapser.Cover | energyrequest/collapse.go:121-136 | Walking the runs in any order decides whether all possible owners, one at least, are summarised runs of the tenant, and finds the newest. |
| Collapsing.Collapser.CoverAll | energyrequest/collapse.go:117-140 | The message is covered if each metering point is; the newest owner is the largest id over all of them. |
| Collapsing.Collapser.Hide | energyrequest/collapse.go:108-148 | Exactly the messages the rule covers are hidden, and each run's latest is the newest message it stands for. |
| Collapsing.LatestIsUnique | energyrequest/collapse.go:106-148 | The result does not depend on the iteration order of the maps. |
| Collapsing.AddOrderIrrelevant | energyrequest/collapse.go:60-77 | The order in which runs are added, and adding some again, does not matter. |
| Collapsing.HidesRows | energyrequest/collapse.go:38-48 | Said of the rows: left out are exactly the answers and request echoes for each of whose metering points some run row can own them, and only runs of the tenant that get a summary can; a run can own a message of a later row, not more than 25 hours younger, before its summary, or without one within 24 hours. |
| Collapsing.LatestOfRows | energyrequest/collapse.go:106-148 | The entry of a run is the newest message left out whose newest possible owner it is; without one it has none. |
| CollapseSoundness.OwnerIsConsidered | energyrequest/collapse.go:92-104 | Hide considers the run an answer belongs to if and only if that run is young enough, and summarised, open or without summary. |
| CollapseSoundness.HiddenAnswersAreOwn | energyrequest/collapse.go:40-48 | A hidden answer that belongs to such a run belongs to a summarised run of the listed tenant. |
| CollapseSoundness.NotFreshCanBeHidden | energyrequest/collapse.go:92-104 | Without that condition an answer of a run without summary can be hidden. |
| CollapseSoundness.OwnCanStayVisible | energyrequest/collapse.go:40-48 | The converse is false: an answer of an own run can stay visible. |
| CollapseSoundness.HiddenIffAllOwn | energyrequest/collapse.go:92-104 | When it does: an answer whose metering points all have such an owner is hidden if and only if every run that could own it for one of them is a summarised run of the tenant. |
| Notifications.Collect | database/notificationDao.go:167-177 | The messages of a batch that may be left out, the first with the highest id, and a date none of them precedes. |
| Notifications.SameHides | database/notificationDao.go:186-200 | A Collapser that has the runs that could own a message, and all summaries from its oldest run on, judges it like one with everything. |
| Notifications.AddRead | database/notificationDao.go:186-198 | Each batch adds every run that could own its messages and keeps the summaries complete from the oldest run on. |
| Notifications.LeaveOut | database/notificationDao.go:166-200 | What is left out of a batch is what a Collapser with every run and summary leaves out. |
| Notifications.MergeLatest | database/notificationDao.go:201-203 | The later of both messages for each run. |
| Notifications.Append | database/notificationDao.go:205-213 | The visible ones of the batch are appended, up to a page. |
| Notifications.NextBatch | database/notificationDao.go:143-165 | A batch is the next piece of the whole list, newest first. |
| Notifications.CollapsedNotifications | database/notificationDao.go:136-217 | The page is the first 30 of the notifications read, newest first, without those a Collapser with everything hides; read is the whole list or what the batch limit allows; `latest` likewise. |
| Notifications.PageIsComplete | database/notificationDao.go:132-217 | Unless the batch limit is hit first, the page is the first 30 of the whole list. |
| Notifications.PageShows | database/notificationDao.go:136-217 | The page holds at most 30 notifications of the tenant, newest first, none of an energy data request, and with collapse none that is left out. |
| Notifications.PageMissesOldOnly | database/notificationDao.go:136-217 | What it lacks of them is older than a full page, or than as many notifications as the batches hold. |
| Notifications.EverythingKnown | database/notificationDao.go:132-135 | The Collapser with everything is the one the soundness of hiding is about. |
| Settlement.ParseIsExact | model/settlementInterval.go:92-132 | An identifier reads as a period if and only if it has the form Abr_type-year-number, names a year from 2000 to 2100 and a number of the calendar (ignored for a year), and the period is that one. |
| Settlement.NameReadsBack | model/settlementInterval.go:92-132 | Every such period has an identifier that reads back as this period. |
| Settlement.IdentifiersOfYear | model/settlementInterval.go:92-132 | Y, YH, YQ and YM name a year, its halves, quarters and months. |
| Settlement.PeriodsInNumbers | model/settlementInterval.go:112-132 | Their months, counted in numbers. |
| Settlement.Uncovered | model/settlementInterval.go:246-259 | The ranges are sorted, a month apart, and hold exactly the uncovered months. |
| Settlement.GapsAreUnique | model/settlementInterval.go:246-259 | So they are the maximal ranges: no other list says the same. |
| Settlement.SplitGaps | model/settlementInterval.go:230-244 | Both parts are the maximal uncovered ranges on their side of the window. |
| Settlement.RunningFrom | model/settlementInterval.go:319-327 | The first running period that ends in the month or later, none if there is none. |
| Settlement.Collect | model/settlementInterval.go:174-187 | First and last month of the final periods, the first identifier that ends last, and exactly the months billed. |
| Settlement.Apply | model/settlementInterval.go:198-223 | Once something is billed: the answer with its reason, gaps, boundary or dates. |
| Settlement.Decide | model/settlementInterval.go:165-224 | Allowed if and only if no recent month is unbilled, the next month starts a period of the new interval and nothing is running from there on; without a final period if and only if nothing is running. |
| Settlement.RuleInNumbers | model/settlementInterval.go:165-224 | The rule without the helpers: the month after the last final period is one in which a period of the interval starts, none of the twelve months before it is unbilled (from the first final one on), and nothing runs later. |
| Settlement.NextStartInNumbers | model/settlementInterval.go:205-212 | The named start is the next month in which a period of the interval starts. |
| Settlement.NewPeriodsAreAligned | model/settlementInterval.go:165-172 | After an allowed change the periods of the new interval are periods of the calendar. |
| Settlement.NewPeriodsTile | model/settlementInterval.go:165-172 | They hold every later month exactly once, and no final or running period reaches into any of them. |
| Settlement.BlockedRangeInOneYear | model/settlementInterval.go:140-147 | The months to be billed first never cross the year end. |
| Settlement.EarliestIsReached | model/settlementInterval.go:205-212 | Billing exactly up to the named start, with nothing running from it on, makes the next decision allow the change from there. |
| Settlement.EarliestIsEarliest | model/settlementInterval.go:205-212 | No later final periods that end before the named start make the change possible. |
| Settlement.OldPeriodsReachEarliest | model/settlementInterval.go:205-212 | The periods of the old interval end exactly before the named start. |
| Lifecycle.IntersectCodes | eda/edaHelpers.go:150-160 | The codes that are expected, in the order of the message. |
| Lifecycle.CodesContains | eda/edaHelpers.go:132-134 | Whether some code is expected. |
| Lifecycle.RejectionCode | eda/edaHelpers.go:136-148 | The stored code keeps an active metering point active if and only if all candidates do; else it is the first that does not. |
| Lifecycle.ApplyEvolves | database/meteringPointDao.go:575-760 | Every statement keeps: never back to INIT, the start date never cleared or later, the last process state a rejection or none. |
| Lifecycle.AfterEvolves | database/meteringPointDao.go:575-907 | So does every run of messages, in any order. |
| Lifecycle.RejectionRestoresEnded | database/meteringPointDao.go:632-652 | Whatever registration messages came, with or without codes, a rejection leaves an ended entry INACTIVE with its dates and notes the rejection. |
| Lifecycle.RejectionRestoresActive | database/meteringPointDao.go:632-652 | It leaves an active metering point ACTIVE if and only if the stored code concerns the request only. |
| Lifecycle.ActiveStaysIffAllKeepActive | eda/edaSubscription.go:303-322 | From the message: ACTIVE stays if and only if all candidate codes concern the request only. |
| Lifecycle.RequestAndRestoreCancel | database/meteringPointDao.go:575-604 | A competing request and its withdrawal leave an ended entry as it was, but for the note of an earlier rejection, the consent and code the request carries, and the stamp. |
| Lifecycle.CompletionAndApprovalCommute | database/meteringPointDao.go:616-624 | Completion and approval in either order make the row active; up to consent and stamp they give the same row if and only if not both carry different codes (a completion carries none). |
| Lifecycle.MeteringPoints.Update | database/meteringPointDao.go:682-704 | One statement changes exactly the rows of its condition; some row changed if and only if one matched. |
| Lifecycle.MeteringPoints.MeteringPointsSetStatus | database/meteringPointDao.go:614-704 | Every assigned row of the metering points takes the state, code, dates and consent of the change; a rejection is noted on an ended row and on an active one whose code concerns the request only; every other row stays. |
| Lifecycle.MeteringPoints.RestoreProcessState | database/meteringPointDao.go:575-596 | An ended entry in INIT goes back to INACTIVE, every other row stays. |
| Lifecycle.MeteringPoints.MeteringPointRevoke | database/meteringPointDao.go:706-729 | The assigned rows of the metering point end at the date. |
| Lifecycle.MeteringPoints.RevokeActive | database/meteringPointDao.go:731-760 | Exactly the assigned active rows begun by the date end; tells whether there was one; none is left. |
| Lifecycle.MeteringPoints.UpdateActive | database/meteringPointDao.go:1155-1185 | Each assigned row of a listed metering point takes part from its own start or the listed one, whichever is earlier, to 31.12.2999, by the list entry that counts for it: the latest after 1.1.1970, the first of several; other rows stay. |
| Lifecycle.LatestActivation | model/dtomodel.go:132-147 | Of several entries the first with the latest start, the first of all when none is positive. |
| Lifecycle.LatestStartsFirstIff | model/dtomodel.go:132-147 | It is an entry that starts first if and only if all start at the same time, or none is positive and the first of the list starts first. |
| Lifecycle.LaterIsTaken | model/dtomodel.go:138-146 | Of two entries from 1 and 2 the one from 2 is taken. |
| Lifecycle.Standardize | model/dtomodel.go:131-161 | One entry per metering point of the list, namely the one that is taken of its entries, in any order of the metering points. |
| Lifecycle.SyncedOnce | database/meteringPointDao.go:1155-1185 | In whatever order the standard entries come, a row is changed by the one of its metering point alone. |
| Lifecycle.SyncedMeansEntry | database/meteringPointDao.go:1155-1185 | What the list makes of a row, read off the list and the row. |
| Lifecycle.Extract | eda/edaHelpers.go:32-49 | All codes in order; metering points and consents of the responses that carry codes. |
| Lifecycle.TrimCutsBlanks | eda/edaSubscription.go:323-333 | A consent id is stored without the blanks around it, and only those are cut off. |
| Lifecycle.OnRejection | eda/edaSubscription.go:303-322 | Which of restore, active, INVALID and REJECTED a rejection means, and the code stored. |
| Lifecycle.OnApproval | eda/edaSubscription.go:323-333 | The last deciding code gives the state, the last refusal the code, the last grant the consent; a grant beyond the consent ids panics. |
| Lifecycle.OnAnswer | eda/edaSubscription.go:334-348 | The last deciding code gives the state, the last refusal the code. |
| Lifecycle.Interpret | eda/edaSubscription.go:277-360 | What each message of the registration process asks for, with the exact change of a request, abort, answer, approval and completion. |
| Lifecycle.RegistrationMeansPeriod | database/meteringPointDao.go:614-704 | For every registration message, read off the message and the row before and after: a completion with one entry, and a rejection with code 156 without 86, make each assigned row they name active from its own start, else from that of the message, to 31.12.2999; every other message leaves status and both dates, and every row it does not name stays as it is. |
| Lifecycle.RegistrationMeansProcess | eda/edaSubscription.go:277-360 | The process state, code and consent of every row reached by a message that completes nothing: by the codes of the message alone. |
| Lifecycle.HandleRegistration | eda/edaSubscription.go:253-396 | The table changes as the message asks for: which rows, their status, dates and process state are those the message means, and every row evolves as above. |
| Revocation.CollectTenants | database/meteringPointDao.go:843-862 | The tenants of the rows found, each once, with whether one of its rows was active. |
| Revocation.RevokeByConsentId | database/meteringPointDao.go:779-907 | Exactly the entries the revocation means end together, if their tenants have one RC number; else nothing changes. Meant are the entries that carry the consent; only if there is none the assigned ones without a consent or with the migration consent. |
| Revocation.ConsentComesFirst | database/meteringPointDao.go:779-907 | The search by steps ends exactly these entries, said of the table before and after. |
| Revocation.ChangesWithinOneRc | database/meteringPointDao.go:779-794 | What changes belongs to the metering point, to one RC number, and with a receiver to the receiver's tenants; an entry with another real consent never changes. |
| Revocation.RevokeAfterAnswer | eda/revokeAnswer.go:15-42 | An answer that ends the participation ends exactly the active rows begun by the requested date; a mail if and only if it was the confirmation and a row ended. |
| Revocation.RevokeByConsent | eda/edaSubscription.go:449-482 | The entries meant end on the date; exactly the tenants with a row that went from ACTIVE to INACTIVE get the mail, each once. |
| Revocation.HandleRevocation | eda/edaSubscription.go:398-526 | For every revocation message: which rows end and with which date, that no other row changes, and that the mails are exactly the endings, none for a request or a rejection. |
| Revocation.RevocationMeans | eda/edaSubscription.go:398-526 | What every revocation message means, read off the message and the table before and after: which entries end, on which day (its consent end, or what the deregistration asked for, else the answer's, else today), and that the mails are exactly the endings. |
| Revocation.ActiveBalance | eda/edaSubscription.go:407-410 | An ending lowers the number of active rows that are not newly activated. |
| Revocation.NoExtraMails | eda/edaSubscription.go:407-410 | Over any run of registration, list and revocation messages, repeated or parallel ones included: mails plus rows still active are at most the rows active at the start plus those activated since. |
| Revocation.HandledMailsEndings | database/meteringPointDao.go:839-842 | What the handlers promise: a message mails only for rows it ended itself, and a revocation message activates nothing. |
| MailTemplates.CountImages | api/mailTemplateController.go:335-346 | Whether an image is missing, and number and size of the distinct ones. |
| MailTemplates.CheckVersionFiles | api/mailTemplateController.go:325-364 | Accepted if and only if all files exist, are of their kind and within the limits; each refusal has its reason. |
| MailTemplates.CheckUpload | api/mailTemplateFiles.go:107-133 | An upload is accepted if and only if the drafts among the files given leave room for one more of its kind and for its size; each refusal has its reason. |
| MailTemplates.AcceptableIsWithin | api/mailTemplateController.go:325-364 | The limits of a version, said of the files: each image counts once, and the sizes of the distinct images and the PDF add up. |
| MailTemplates.ListedHasRoom | api/mailTemplateFiles.go:107-133 | The limits of an upload, said of the files: only the drafts younger than 24 hours count. |
| MailTemplates.NextKeeps | database/mailTemplateDao.go:81-286 | Upload, draft delete, save and reset keep: the committed files are exactly those the saved version uses, present and within the limits. |
| MailTemplates.CommittedAreUsed | database/mailTemplateDao.go:74-80 | So they are after any sequence of requests. |
| MailTemplates.FreshDraftsWithin | database/mailTemplateDao.go:236-249 | After any sequence of requests, uploads in the order of their times, the drafts younger than 24 hours are within the limits from the last upload on. |
| MailTemplates.AllDraftsWithinIff | database/mailTemplateDao.go:43-47 | All drafts stay within the limits after an upload if and only if it is refused or the drafts older than 24 hours leave room for it, too. |
| MailTemplates.OldDraftsAreNotCounted | database/mailTemplateDao.go:43-47 | Two images where one is allowed, the second 25 hours after the first. |
| MailTemplates.SaveReplacesWhatWasLoaded | database/mailTemplateDao.go:33-38 | When a save finds the version number its editor loaded, it replaces that very version if and only if there was no reset in between, or nothing to lose. |
| MailTemplates.ResetHidesASave | database/mailTemplateDao.go:163-174 | After a reset and another save, a save against the old number is accepted. |
| MailTemplates.GetCommitted | database/mailTemplateDao.go:210-234 | Exactly the committed files among the ids. |
| MailTemplates.RenderFiles | mailtemplate/render.go:64-91 | Refused if and only if a file is missing or of another kind, or a limit is exceeded. |
| MailTemplates.StoredVersionCanBeSent | mailtemplate/send.go:45-62 | After any sequence of requests the stored version finds its files, within the limits. |
| MailTemplates.MailStore.SaveTemplate | database/mailTemplateDao.go:81-157 | Accepted if and only if the version is the expected one and its files are within the limits: then the next version is stored, the files it uses are committed and of the others the drafts of the last 24 hours stay; otherwise nothing changes. |
| MailTemplates.MailStore.CommitFiles | database/mailTemplateDao.go:125-144 | Used files are committed, unused committed ones deleted, drafts stay, in whatever order. |
| MailTemplates.MailStore.InsertFile | database/mailTemplateDao.go:236-260 | An upload that passes the check against the drafts of the last 24 hours is a new draft; otherwise nothing changes. |
| MailTemplates.MailStore.DeleteFile | database/mailTemplateDao.go:262-286 | Only a draft is deleted. |
| MailTemplates.MailStore.DeleteTemplate | database/mailTemplateDao.go:163-174 | Neither a version nor a file is left. |
| MailTemplates.MailStore.FilesToSend | mailtemplate/send.go:30-62 | Sending never fails on the files of the stored version. |
| MailWorker.RunJob | services/mailWorker.go:140-169 | Made are exactly the attempts without a key and those whose earlier attempts with the key all failed or panicked, in their order; reported are those of them the server did not confirm. |
| MailWorker.SentOncePerKey | services/mailWorker.go:43-56 | Of the attempts with one key at most one counts as sent, and the first that can go out is made. |
| MailWorker.StepKeeps | services/mailWorker.go:72-138 | Every step of enqueuers, worker and stop keeps the invariant. |
| MailWorker.EachJobOnce | services/mailWorker.go:82-138 | In every interleaving each enqueued job is in exactly one place: run, running, queued, just taken or reported or dropped by Stop, or refused. |
| MailWorker.InQueueOrder | services/mailWorker.go:58-60 | Jobs leave the queue, and are run, in the order they were queued. |
| MailWorker.NothingAfterClose | services/mailWorker.go:94-115 | Nothing is put on the closed queue. |
| MailWorker.StopCounts | services/mailWorker.go:116-138 | Stop counts how many queued jobs the worker has not taken at that moment. |
| MailWorker.CountIsFinalIffQueueEmpty | services/mailWorker.go:105-138 | Whatever happens afterwards, also before Stop returns, that count stays right if and only if no job is on the queue when it is made. |
| MailWorker.CountedJobIsTaken | services/mailWorker.go:125-137 | A run in which both time limits pass, Stop counts two jobs as not sent, and the worker takes one of them before Stop returns. |
| MailWorker.DoneMeansAllRun | services/mailWorker.go:117-121 | When the worker is done in time, every queued job was run. |

## Left out

- HTTP, MQTT, JWT, logging, SQL text, migrations, JSON decoding: plumbing. A message that does not decode is `Other`.
- Unicode case folding: `EqualFold` and `ToUpper` cover the ASCII letters of tenants, ids and RC numbers.
- Time zones and daylight saving: the calendar is any numbering of days that never runs backwards.
- Errors of the database, except in `Check` and closing; a failed statement changes nothing.
- The order of equal starts after `sort.Slice`, which is not stable: any sorted order of the parts is allowed.
- LockSafety.NoLockedPartIsSent: for one instance, because the mutex of a tenant is not shared between instances.
- EnergyRows.WindowAgreesIffNoneWaiting: for logs after which two more row ids can follow, and a calendar with a later day
  than all requests.
- AttributionOnline.PrefixStable: on an append-only log; `KeepSent` edits of a run row are outside it.
- Attribution.Attribute: each node carries its run id, where the code keeps a second map from row to run id.
- CommunityCaching.CommunityCache.Look: the age limit of 15 seconds; what is stored is proved whatever its age.
- CommunityCaching.CachedEntriesHoldClearedWrites: about writes of this instance, others show after the age limit.
- CollapseSoundness.HiddenAnswersAreOwn: about answers; the request echoes left out by the same rule belong to no run.
- Notifications.CollapsedNotifications: on one snapshot of the table; the placing of live entries between the
  notifications and the plain list after an error are not modelled.
- Settlement.Decide: the data of the answer, not its German wording; the identifiers are readable, as its caller ensures.
- Lifecycle.HandleRegistration: participation factors, technical codes, notifications, history and mails of the
  registration, and edits by clients.
- Revocation.RevokeByConsentId: the tenants come in table order instead of sorted; a community without RC number is not
  modelled.
- Revocation.HandleRevocation: notifications and history.
- MailTemplates.CheckVersionFiles: subject, sanitising and links; a text stands for the images it refers to.
- MailTemplates.StoredVersionCanBeSent: version and files are read at one moment; a save between the two reads of
  one sending is not covered.
- MailTemplates.MailStore.InsertFile: the size and type checks of the uploaded content itself.
- MailWorker.StepKeeps: the worker is given as a state machine over its steps instead of a class, because its steps
  interleave; the time limits become a step that may happen at any moment.
