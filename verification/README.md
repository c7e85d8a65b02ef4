# Cogate: proved models of its stateful core

Cogate is a self-hosted agent gateway written in Go. This project models the
parts of it that keep state across many steps, and proves what those steps keep
over all runs.

| part | files | what is proved |
|---|---|---|
| messages | MessageStore, MessageLog, MessageCrash, MessageHarm, MessageStops, MessageWriters, MessageTables | compaction, archiving and resets refine an append-only log; which stops between two statements can archive a message twice or lose one, and exactly when |
| cron | Calendar, CronSearch, CronTheorems, CronJump, CronParse, CronRun, CronReplies, CronSchedule | the search answers a matching time, the earliest one, within its iteration limits; exactly when the month jump ends; expressions read back as printed; interval jobs stay on their lattice |
| patches | Patch, PatchMeaning, PatchText, PatchEffects, PatchForms | running a printed patch takes the files through its operations, each doing exactly what it means; other ways of writing a patch run alike |
| admission | RateLimit, RateRaces, Slots, ToolLoop | bounds on what a window lets through, over all traces and interleavings |
| queues | EventQueue, Subtasks | a claim reads the row it changed, events move forward and are claimed once; the completed counter is derived |
| text formats | EnvConfig, CommandArgs, Thinking, ToolStream | round trips, each with the exact condition under which it holds |
| vector memory | VectorCodec, VectorIndex, VectorStore, VectorLabels, VectorTable | paging loads what one pass loads; after any run the labels lead to their rows exactly when no vector is without a label |

Options, Strings and Sequences hold the option type, the string functions of the
host language and a few facts about sequences.

Every component has the source's mutable form (a class with its fields, a method
with its loop) whose contract equates the new state with a function, and lemmas
about that function over whole runs. Where SQL leaves an order open, or another
thread may act between two statements, the model is a set of allowed steps and
the theorems quantify over all of them.

## Assumptions

- Storage statements succeed, and a NULL text reads as empty. Stored clocks and
  clocks that are read have one resolution. Rows come back in id order.
- Parameters: the text a language model returns, token estimates, embeddings, the
  distances and labels a search of the index returns, whether a connection is
  accepted, the clock, and the path resolver of the patch tool.
- KeepMessages is not negative. Other sessions touch a session only by advancing
  the shared id counter. Nothing is posted in the middle of a compaction.
- The timezone is UTC, times are at or after 1970.
- Row ids of the vector table are fresh when they are stored.

## Where the code is not what it promises

The code is modelled as it is. Each of these is a lemma, with the condition under
which the code does meet the property.

- A compaction reads at most 500 rows, but clears all of them. `RunIsLog`: the
  archive and the live rows are the log if and only if nothing was beyond the
  limit, and the reset for idle sessions, which archives nothing, found nothing.
  `LosingRuns` shows both losses.
- A manual compaction or a `/reset` that stops right after its archiving statement
  leaves archived rows in place; a later compaction can give one of them a new id
  and another one archives it again (`StoppedWriterArchivesTwice`). Such a stop is
  harmless, whatever follows, if and only if the archived rows that an automatic
  compaction would keep are all summaries (`StopIsHarmlessIff`). No other stop lets
  a message be archived twice (`OnlyOneStopIsHarmful`).
- An automatic compaction that stops after the clearing loses the kept messages it
  has not put back: they are in neither table (`StoppedCompaction`). Nothing is lost
  if and only if those are all summaries (`StopLosesNothingIff`), or if it stops
  before the clearing, when the archived messages are seen twice
  (`StopBeforeClearing`). The other writers archive all they read first, so a stop
  loses nothing more (`OtherStopsLoseNothing`).
- The cron search never returns if and only if a single day is listed that none of
  the listed months ever has, and no restricted weekday matches before a month
  outside the list begins (`HangsIff`, `NoReplyIff`). `0 0 30 2 *` is never answered
  (`ThirtiethOfFebruary`), and `0 0 30 2 1` only within February
  (`MondaysOfFebruary`).
- For the days 29 to 31 the month jump may land on the wrong day. It lands in the
  first later month that is listed and has the day (`JumpLandsFirst`), and the answer
  is right if and only if that is the next month, or the month before it has the day
  too, or a restricted weekday matches by chance (`JumpAnswers`); before November,
  `0 0 31 12 *` answers the first of December (`LastOfDecember`).
- The patch tool keeps the lines of an update while it handles a delete, and
  flushes them to the empty path at the next operation: a failure is reported
  that no operation caused. The reports are right if and only if no delete
  follows an update with new lines, adds aside (`ReportsAreTheFolds`);
  `SpuriousFailure` is such a patch.
- The rate limiter's resets are not exclusive: any number of callers that have
  read an expired row are allowed (`EveryReaderResets`). Every window is reset at
  most once if and only if nobody reads an expired row that another caller is
  about to reset (`ResetOnceIff`), and then the bound of a single caller holds
  (`ExclusiveHour`).
- A WebSocket connection whose client address is empty never gives back its entry
  in the per-address map (`AllGivenBack`, `NoEmptyNoLeak`); ten of them lock the
  empty address out for good (`VisitsLeak`, `LeaksLockOut`).
- The tool-loop detector's count of consecutive calls never expires: no call is
  ever run again if and only if it has reached its limit (`StuckIff`), which calls
  of one tool reach however far apart they are (`SpacedReaches`).
- The comment on `ClaimNextEventV2` promises that concurrent workers cannot claim
  one event. They can (`TwoWorkersShareAnEvent`); the claim is right if and only if
  every row already in processing sorts after the new one (`ClaimIsExactIff`).
- The queue stands still if and only if some pending priority is negative or all
  are above 3 (`StandsStillIff`); a negative one, which only the storage function
  lets in, stops it for ever (`NegativeBlocksForEver`).
- `ExecuteSubtasks` always ends in its error branch, since the query for the next
  subtask answers "no rows" as an error: the results are dropped and the task is
  marked failed, whatever the subtasks did (`ExecuteSubtasks`).
- A quote character inside the other kind of quotes is dropped by
  `parseCommandArgs`: arguments are parsed back if and only if none of them holds
  a quote (`CommandArgs.RoundTripIff`); `ApostropheIsLost` is an example.
- Streamed tool calls are merged right, for all contents, if and only if new
  indices come as 0, 1, 2, ... (`RightIffInOrder`); `WherePieceGoes` says where the
  first other piece ends up.
- A refused row and a deletion leave a vector without a label in the index, and so
  does a rebuild that finds old vectors in its file; all labels are right if and
  only if there is no such vector (`AlignedIff`). What goes wrong is in
  `RefusedVectorMisleads` and `DeleteShifts`.

## Model

| member | source | states |
|---|---|---|
| MessageTables.SessionTables.AddMessage | storage/storage.go:511-521 | the row is appended under the next id, and the id is used up |
| MessageTables.SessionTables.ArchiveMessages | storage/storage.go:722-734 | the loop over rows and archive is INSERT OR IGNORE ... SELECT of the rows above the watermark and up to the bound that are not summaries and whose id is not archived yet |
| MessageTables.SessionTables.ClearMessages | storage/storage.go:560-567 | all live rows go; archive, meta row and id counter stay |
| MessageTables.SessionTables.UpsertSessionMeta | storage/storage.go:595-611 | the meta row is replaced and nothing else changes |
| MessageStore.SummaryIsJoined | agent/agent_compact.go:233-246 | a summary is its lines joined by line breaks, and without breaks in the texts it can be taken apart into them |
| MessageTables.SessionTables.SummaryOf | agent/agent_compact.go:233-246 | the loop builds that summary, each content cut at 200 bytes |
| MessageTables.SessionTables.MaybeCompact | agent/agent_compact.go:102-184 | it compacts exactly when the tokens reach the threshold and more rows are stored than kept; from a valid state the state stays valid and what a reader sees loses exactly the messages beyond 500 rows |
| MessageTables.SessionTables.RunCompact | agent/agent_session.go:19-59 | the manual compaction statement by statement; it leaves its summary, if any, as the only live row and as the meta row's, with the id of the last row read; a valid state stays valid and loses only what lay beyond 500 rows |
| MessageWriters.ManualTables | agent/agent_session.go:19-59 | a manual compaction of a session with rows leaves exactly: the archive with what it read, the tagged summary or no live row, the last id read, one compaction more, and that summary |
| MessageWriters.ArchivedRows | storage/storage.go:722-734 | archiving adds each selected row whose id is not archived yet, under its id, in order, and no other |
| MessageTables.SessionTables.RunResetSession | agent/agent_session.go:72-93 | /reset statement by statement; it leaves its marker as the only live row and keeps the watermark; a valid state stays valid, and only rows beyond 1000 are lost |
| MessageWriters.ResetTables | agent/agent_session.go:72-93 | the tables a /reset leaves, field by field |
| MessageWriters.IdleTables | storage/storage.go:636-653 | the reset of an idle session empties the live table and sets the meta row back, and archives nothing |
| MessageLog.ArchiveIntoAppends | storage/storage.go:722-734 | if all live rows are above the watermark and not archived, archiving appends exactly the texts of the rows up to the bound, in order |
| MessageLog.CompactRefines | agent/agent_compact.go:155-178 | archiving a prefix, clearing, putting the tail back under new ids and adding the summary leaves what a reader sees unchanged, and every live id above the new watermark |
| MessageLog.CompactedTables | agent/agent_compact.go:150-178 | a compaction leaves exactly the kept messages, in order, under the next ids, then a summary of the others; the meta row holds that summary, the raised counters and the last archived id |
| MessageLog.AutoRefines | agent/agent_compact.go:102-184 | one automatic compaction keeps the invariant and loses exactly the messages beyond 500 rows |
| MessageLog.ManualRefines | agent/agent_session.go:19-59 | the same for a manual compaction |
| MessageLog.ResetRefines | agent/agent_session.go:72-93 | the same for /reset with its limit of 1000, which also adds its marker |
| MessageLog.StepRefines | agent/agent_compact.go:126-178 | every writer, the idle reset of the pulse handler and other sessions included, keeps the invariant (ids grow, every live id is above the watermark and unarchived) and changes what a reader sees only by what it loses and posts |
| MessageLog.RunConserves | agent/agent_compact.go:126-178 | over every run the messages seen and the messages lost are together as many as were ever added |
| MessageLog.RunIsLog | agent/agent_compact.go:126-178 | over every run, archive followed by live rows is the log of all non-summary messages in order if and only if no step lost anything |
| MessageLog.WithinLimitsNothingIsLost | agent/agent_compact.go:126-178 | with at most 500 live rows at each step and no idle reset, the archive followed by the live rows is the log |
| MessageLog.LosingRuns | agent/agent_session.go:25-49 | after more than 500 posts a manual compaction loses all but the first 500, and an idle reset loses what there is |
| MessageStore.TaggedIsSummary | agent/agent_compact.go:176-178 | the row a compaction adds is one that archiving leaves out |
| MessageCrash.ArchiveIntoSafe | storage/storage.go:722-734 | archiving again, after a stop, adds no message a second time and leaves every archived live row under the id it was archived with |
| MessageCrash.CompactPrefixSafe | agent/agent_compact.go:155-178 | after any number of a compaction's statements, archived messages keep their ids and stand in the prefix the next compaction archives |
| MessageCrash.ArchivingIsSafeIff | storage/storage.go:722-734 | archiving a prefix without clearing it keeps the invariant exactly when what it archives is settled: below the rows the next compaction keeps, beyond the 500 it reads, or a summary |
| MessageCrash.RunSafe | agent/agent_compact.go:155-178 | after every run of whole events and harmless stops with one KeepMessages, an archived live row keeps its id and is settled |
| MessageCrash.OnlyOneStopIsHarmful | agent/agent_session.go:44-56 | with KeepMessages fixed, wherever the writers stop but right after the archiving of a manual compaction or /reset, no message is archived twice |
| MessageCrash.NoMessageIsArchivedTwice | agent/agent_compact.go:155-178 | with KeepMessages fixed and only harmless stops, no message is archived twice and an archived live row has the id it was archived under |
| MessageHarm.StopIsHarmlessIff | agent/agent_session.go:44-56 | from any safe state, a manual compaction or /reset stopped right after archiving lets no later run archive a message twice if and only if all it archived that is not settled are summaries |
| MessageStops.StoppedCompaction | agent/agent_compact.go:172-178 | stopped after the clearing and j of the messages put back, an automatic compaction leaves a reader the archive, the messages it archived, and those j |
| MessageStops.StopLosesNothingIff | agent/agent_compact.go:172-178 | then nothing it read is lost if and only if all kept messages that are not back are summaries |
| MessageStops.StopBeforeClearing | agent/agent_compact.go:119-170 | stopped before the clearing it loses nothing, and once it has archived, those messages are seen in both tables |
| MessageStops.OtherStopsLoseNothing | agent/agent_session.go:44-90 | a manual compaction or /reset stopped after the clearing leaves a reader all it read, and the marker once it is added |
| MessageHarm.ArchivedAgain | agent/agent_compact.go:155-178 | an archived message that an automatic compaction keeps is archived again by the next manual one |
| MessageHarm.StoppedWriterArchivesTwice | agent/agent_session.go:77-82 | two posts, a manual compaction or /reset stopped after its first statement, and two compactions archive one message twice |
| Calendar.MonthOf | cron/cron.go:667-682 | the month found for a day is the one whose days it lies among |
| Calendar.MonthOfIs | cron/cron.go:667-682 | a day lies in exactly one month, so date and day number determine each other |
| Calendar.MonthStartIs | cron/cron.go:667-682 | the first day of every month from 1970 on in closed form: 365 days a year, one for each multiple of 4 but not of 100 unless of 400, and the days before the month |
| Calendar.FourHundredYears | cron/cron.go:667-682 | dates and weekdays repeat after 400 years, which are 146097 days |
| CronSearch.SearchStops | cron/cron.go:657-714 | the loop stops at the first step that matches or takes the month jump; every earlier step was passed rightly, and it falls back only if all were passed |
| CronTheorems.WildcardNeverFallsBack | cron/cron.go:644-655 | with `*` day and month the search finds a match within the shorter limit, always |
| CronTheorems.SingleDayNeverFallsBack | cron/cron.go:644-655 | with a single day up to the 28th and any months it never falls back |
| CronTheorems.WeekLimitIsTight | cron/cron.go:644-655 | for minutes and for seconds an expression whose match is the last iteration of the limit of a week, so that one less would not do |
| CronTheorems.MonthLimitIsTight | cron/cron.go:644-655 | for minutes and for seconds an expression with a single day whose match is the last iteration of the limit of 31 days, so that one less would not do |
| CronTheorems.NextMonthLands | cron/cron.go:667-682 | one round lands in the next month, or in the one after if that is too short, and always later |
| CronTheorems.JumpEndsIff | cron/cron.go:667-682 | the month loop ends if and only if some listed month has the day in some year; then within 96 rounds, or 12 for a day up to the 28th, and no further round changes the answer |
| CronTheorems.JumpLands | cron/cron.go:667-682 | for a day up to the 28th the jump lands in the first listed month, at the listed day and first clock time |
| CronJump.JumpLandsFirst | cron/cron.go:667-682 | for every day the jump lands in the first later month that is listed and has the day, and its time is the one asked for in that month, or in the shorter one before it |
| CronJump.FirstGoodComes | cron/cron.go:667-682 | if some listed month has the day in some year, there is such a month within 96 months |
| CronJump.JumpAnswers | cron/cron.go:667-682 | from the month asked in and the first such month: the exact time of the answer, which matches if and only if that is the next month, or the month before has the day, or a restricted weekday matches |
| CronJump.JumpMatchesIff | cron/cron.go:667-682 | the day of the month landed on, for every number of rounds |
| CronJump.NoSuchDay | cron/cron.go:657-714 | a single day that no listed month ever has: the search never falls back, and never returns unless a restricted weekday matches first |
| CronJump.HangsIff | cron/cron.go:657-714 | the search never returns if and only if a single day is listed that no listed month ever has, and no step matches before one outside the listed months |
| CronJump.HangsIffAnyWeekday | cron/cron.go:657-714 | with `*` for the weekday, if and only if such a day is listed |
| CronTheorems.ResultIsAMatch | cron/cron.go:657-714 | a time found step by step is after now and matches all fields; a jump to a day up to the 28th too |
| CronTheorems.NoMatchBefore | cron/cron.go:657-714 | nothing the loop went past matches, on a step or between two |
| CronTheorems.FoundIsEarliest | cron/cron.go:657-714 | a match found step by step is the earliest after now, at the resolution of a second |
| CronTheorems.JumpedIsEarliest | cron/cron.go:667-682 | so is a jump to a day up to the 28th when the weekday is `*` and the clock lists begin with their least values |
| CronParse.StepsAre | cron/cron.go:573-584 | `*/n` gives every n-th value from the minimum and no other |
| CronParse.ParseFieldIsSound | cron/cron.go:554-620 | whatever the text, the values are in the field's range, ascending unless it is a comma list, and `*` gives all |
| CronParse.FieldRoundTrip | cron/cron.go:554-620 | a printed wildcard, step, range or list is parsed back as its meaning, out-of-range values clipped or dropped |
| CronRun.ParsedIsWellParsed | cron/cron.go:514-631 | any text that is accepted gives lists on which the search is right |
| CronRun.ExpressionRoundTrip | cron/cron.go:514-631 | a printed five-field expression is parsed back as the meanings of its fields, and rejected if one is empty |
| CronRun.SixFieldsRoundTrip | cron/cron.go:519-546 | a printed six-field expression is parsed back with the second first and then the minute, in steps of one second, and rejected if a field is empty |
| CronRun.OnlySixWords | cron/cron.go:519-546 | fewer than five words are rejected, and words past the sixth change nothing |
| CronRun.NextCronIsLater | cron/cron.go:514-717 | for every text the reply is after now, and a match or exactly one hour later; there is none only when the single day is in none of the listed months |
| CronReplies.NoReplyIff | cron/cron.go:514-717 | for every accepted text there is no reply under exactly the condition of CronJump.HangsIff |
| CronReplies.NoReplyIffAnyWeekday | cron/cron.go:514-717 | and with `*` for the weekday exactly for a day that no listed month has |
| CronReplies.MondaysOfFebruary | cron/cron.go:667-682 | `0 0 30 2 1` is not answered when it is asked outside February |
| CronReplies.NextCronIsEarliest | cron/cron.go:514-717 | for every accepted text a reply found step by step is the earliest match after now; so is a jump to a day up to the 28th if the weekday is `*` and the text has no comma |
| CronReplies.ThirtiethOfFebruary | cron/cron.go:667-682 | `0 0 30 2 *` is never answered, whenever it is asked |
| CronReplies.LastOfDecember | cron/cron.go:667-682 | from January to October `0 0 31 12 *` is answered with the first of a December, which does not match |
| CronRun.SearchLoop | cron/cron.go:644-714 | the loop with its limits, its five tests and its jump computes the search |
| CronTheorems.FallsBackOnly | cron/cron.go:657-717 | the fallback is reached only after every step of the limit was passed rightly, and with several days there is no jump |
| CronRun.MonthLoop | cron/cron.go:667-682 | the month loop computes the jump |
| CronSchedule.StaggerOf | cron/cron.go:483-491 | the wrapped hash of the id modulo the stagger, negative for a negative hash, always less than the stagger in size |
| CronSchedule.HashIsCodeSum | cron/cron.go:483-491 | the hash is the sum of the characters' codes, each times 31 to the number of characters behind it, in 64-bit arithmetic |
| CronSchedule.RemIs | cron/cron.go:489-490 | the remainder of that hash has the hash's sign |
| CronSchedule.CalculateNextRun | cron/cron.go:425-508 | a cron job runs as the expression says; a one-off job at its staggered time or never; an interval job at the first time after now on the lattice of its staggered start, and not before that start |
| CronSchedule.AnchoredRuns | cron/cron.go:454-507 | that run is congruent to anchor plus stagger, at most one interval and the stagger after now or the anchor, and without stagger the least lattice point after now and not before the anchor |
| CronSchedule.UnanchoredRuns | cron/cron.go:473-507 | without an anchor the run is one interval and the stagger from now, or the next point of that lattice if this is not after now |
| CronSchedule.LeastPoint | cron/cron.go:462-472 | the division that skips to the next interval skips no lattice point |
| Patch.PatchRun.FlushUpdate | tools/apply_patch.go:84-97 | pending lines are applied to the current file, empty or not, and dropped |
| Patch.PatchRun.NewOperation | tools/apply_patch.go:106-137 | what each operation header resets, and that a delete acts at once, as PatchEffects.OpMeans says |
| Patch.PatchRun.OnLine | tools/apply_patch.go:99-280 | one line in every state: what is applied, what is collected, and which lines skip the size check |
| Patch.PatchRun.InsideUpdate | tools/apply_patch.go:242-273 | which lines of an update are old, new or both, inside and outside a hunk |
| Patch.PatchRun.ApplyPatch | tools/apply_patch.go:70-298 | the loop with its size check is the run of the machine over the lines; when the patch is too large, what was applied stays |
| Patch.PatchRun.Remaining | tools/apply_patch.go:282-297 | an unfinished add or update is applied at the end of the text |
| Patch.ApplyPartialUpdate | tools/apply_patch.go:368-393 | the two loops over old lines and file lines are the fold of single replacements |
| PatchMeaning.Closes | tools/apply_patch.go:84-97 | closing the pending operation gives the state of the fold, and one failure on the empty path if older lines are still held |
| PatchMeaning.OpRuns | tools/apply_patch.go:99-280 | the lines of one printed operation take the machine from one state of the fold to the next, whatever lines it still holds |
| PatchMeaning.OpsRun | tools/apply_patch.go:99-280 | and so do the lines of a list of operations |
| PatchText.PrintedPatchApplies | tools/apply_patch.go:70-298 | for every list of operations the text prints to is run to exactly the files of the fold, with the fold's reports and one failure wherever old lines are flushed; PatchEffects says what the fold's operations do |
| PatchEffects.OpMeans | tools/apply_patch.go:300-433 | an add writes the joined lines to a free path and fails on a taken one; a delete leaves the path free and fails if it was; an update gives an existing file its modified content; a move leaves the source free and its content at the target; every other path stays, and the report says which it was |
| PatchEffects.PatchMeans | tools/apply_patch.go:70-298 | running a printed patch takes the files through its operations one by one, each doing that |
| PatchEffects.OtherPathsStay | tools/apply_patch.go:70-433 | a path that no operation names keeps what it has, or stays free |
| PatchEffects.UpdateAppends | tools/apply_patch.go:326-365 | new lines without old ones go behind the text |
| PatchEffects.UpdateFallsBack | tools/apply_patch.go:326-365 | if the old block does not occur, its lines are replaced one by one |
| PatchEffects.PartialStepReplacesFirst | tools/apply_patch.go:368-393 | one such replacement puts the new line of the same position, if there is one, in place of the first line that contains the trimmed old line |
| PatchForms.TooLargeIff | tools/apply_patch.go:276-279 | a patch is refused as too large if and only if some line past the limit is not one on which the loop continues early |
| PatchForms.UnfinishedPatchApplies | tools/apply_patch.go:282-297 | a patch without its last line leaves the same files, and only the report of lines still held is missing |
| PatchForms.OutsideIsIgnored | tools/apply_patch.go:99-104 | text before the first marker and behind the last one is ignored |
| PatchForms.AddWithoutMarks | tools/apply_patch.go:181-186 | lines of a new file without their mark are read as with it |
| PatchForms.ContextWithoutMarks | tools/apply_patch.go:255-265 | so are context lines inside a hunk |
| PatchForms.ContextBeforeHunk | tools/apply_patch.go:266-273 | before a hunk lines that begin with a space are context, without that space |
| PatchForms.IgnoredLines | tools/apply_patch.go:193-273 | the end-of-file line, marked lines before a hunk and empty lines inside one change nothing |
| PatchForms.CrLfIsLf | tools/apply_patch.go:70-76 | a patch with CR LF line endings is the same patch |
| PatchText.ReportsAreTheFolds | tools/apply_patch.go:84-97 | the reports are the fold's if and only if no delete follows an update with new lines, adds aside |
| PatchText.SpuriousFailure | tools/apply_patch.go:84-97 | an update of one file and a delete of another: right files, one report too many |
| PatchText.UpdateReplacesFirst | tools/apply_patch.go:326-365 | an update replaces the first occurrence of its old block and keeps the text around it |
| PatchText.PartialStepIsLocal | tools/apply_patch.go:368-393 | one fallback round changes at most lines that contain the trimmed old line, into the new line at the same position |
| PatchText.PartialUpdateKeepsLineCount | tools/apply_patch.go:368-393 | the fallback never adds or removes a line |
| RateLimit.Limiter.SetRateLimit | storage/storage.go:1399-1408 | a new limit starts a window, an old one only changes its maximum |
| RateLimit.Limiter.CheckRateLimit | storage/storage.go:1429-1476 | no row or a maximum of zero allows all; an expired window is reset and the request allowed uncounted; otherwise it is counted if below the maximum |
| RateLimit.ZeroIsUnlimited | storage/storage.go:1435-1438 | with a maximum of zero every request of every trace is allowed and none is counted |
| RateLimit.WindowIsExact | storage/storage.go:1455-1475 | inside a window exactly the first requests up to the maximum are allowed |
| RateLimit.ResetWindow | storage/storage.go:1442-1475 | a window that starts with a reset allows the resetting request and at most max more, exactly |
| RateLimit.AnyHour | storage/storage.go:1429-1476 | over any trace with a fixed maximum, also one lowered below the count, no closed hour allows more than 2 max + 1 |
| RateLimit.TheBoundIsAttained | storage/storage.go:1429-1476 | for every max a trace that allows 2 max + 1 in a closed hour |
| RateRaces.CountNeverExceeds | storage/storage.go:1442-1475 | however reads, resets and conditional increments interleave, the stored count is what increments let through since the last reset, and at most max unless it was more at first |
| RateRaces.OneCallerIsCheck | storage/storage.go:1429-1476 | a caller that nobody comes between leaves the row and gets the answer of one check |
| RateRaces.AdmittedBound | storage/storage.go:1442-1475 | for every interleaving at most what was free at first, and max + 1 for every reset, is let through |
| RateRaces.ResetOnceIff | storage/storage.go:1442-1453 | when no reset is pending, every window was reset at most once if and only if no caller read an expired row that another was about to reset |
| RateRaces.ExclusiveHour | storage/storage.go:1429-1476 | then no closed hour lets more than 2 max + 1 through |
| RateRaces.EveryReaderResets | storage/storage.go:1442-1453 | with a maximum that is not zero, n callers that read an expired row one after another are all let through, none is counted, and all but one reset a window that was reset already |
| Slots.StepKeeps | gateway/websocket.go:63-131 | every atomic section of every handler keeps counter and per-address map equal to the handlers that hold them |
| Slots.LimitsHold | gateway/websocket.go:63-104 | for every interleaving at most maxWSConns handlers are past the global check, at most 10 per address are admitted, and both counts are the handlers holding them |
| Slots.AdmittedIff | gateway/websocket.go:63-104 | after every run a handler passes the global check exactly if fewer than maxWSConns are past it, is admitted exactly if fewer than ten hold its address, leaked entries counted, and goes on from there step by step |
| Slots.AllGivenBack | gateway/websocket.go:84-131 | when all handlers are gone the counter is zero, and the map empty if and only if no connection closed with an empty address |
| Slots.NoEmptyNoLeak | gateway/websocket.go:119-130 | if every handler arrives with an address, nothing leaks |
| Slots.LeaksLockOut | gateway/websocket.go:119-130 | there are never more than ten leaks, and after the tenth no handler with an empty address is admitted, whatever follows |
| Slots.VisitsLeak | gateway/websocket.go:63-131 | up to ten visits without an address each leave an entry behind |
| Slots.Gateway.EnterAddress | gateway/websocket.go:70-85 | the locked section admits exactly if the address has fewer than ten connections, and then counts one more; every other address keeps its count |
| Slots.Gateway.LeaveAddress | gateway/websocket.go:95-102 | the entry is decremented, and removed when it reaches zero; every other address keeps its count |
| Slots.Gateway.HandleWebSocket | gateway/websocket.go:63-131 | a handler alone serves its connection exactly if both limits leave room and the upgrade succeeds, and gives back exactly what it took, however it ends, unless it served an empty address |
| ToolLoop.ToolLoopDetector.CleanupOldCalls | agent/tool_loop_detection.go:111-120 | exactly the calls after the cutoff stay, in order |
| ToolLoop.ToolLoopDetector.RecordCall | agent/tool_loop_detection.go:53-76 | the call is stored after the expired ones are dropped, and the counter goes up or starts again |
| ToolLoop.ToolLoopDetector.CheckLoop | agent/tool_loop_detection.go:79-108 | a loop is reported exactly on too many calls, too many in a row, or a tool three times in a row whose outer two arguments are equal |
| ToolLoop.ToolLoopDetector.ExecuteToolCalls | agent/agent_tools.go:14-43 | a reported loop runs nothing; otherwise the whole batch is recorded and run |
| ToolLoop.RunTracks | agent/tool_loop_detection.go:53-120 | over every run with a clock that does not go back, the stored calls are those of the whole history in the window that ends at the last reading taken, and the counter is the length of its final run of one tool |
| ToolLoop.NextRunsIff | agent/agent_tools.go:14-43 | after every run the next batch is run exactly if fewer than maxCalls of the calls run before are in the window, fewer than sameToolLimit of one tool end them, and the window does not end with three calls of one tool whose outer arguments are equal |
| ToolLoop.SinceIs | agent/tool_loop_detection.go:111-120 | of each call as many are kept as were made after the cutoff, and those before it are not |
| ToolLoop.SinceIsTheEnd | agent/tool_loop_detection.go:111-120 | on a clock that does not go back what is kept is the end of the history |
| ToolLoop.WindowBound | agent/agent_tools.go:18-43 | every half-open interval of the window's length holds at most maxCalls - 1 plus one batch of executed calls |
| ToolLoop.RunBound | agent/agent_tools.go:18-43 | the final run of one tool is at most sameToolLimit - 1 plus one batch long |
| ToolLoop.NoLimitNoCalls | agent/tool_loop_detection.go:79-85 | a limit of zero or less lets nothing run |
| ToolLoop.StuckForEver | agent/tool_loop_detection.go:88-93 | once the counter has reached its limit nothing is ever run again, and it stays there |
| ToolLoop.StuckIff | agent/tool_loop_detection.go:79-108 | some later call is still run, on a clock that does not go back, if and only if the counter is below its limit |
| ToolLoop.SpacedReaches | agent/tool_loop_detection.go:53-76 | calls of one tool reach the limit for every configuration, however far apart they are |
| EventQueue.ClaimIsExactIff | storage/storage.go:1211-1275 | the row read back is the row updated, whatever the ties, if and only if every row already in processing comes strictly after it |
| EventQueue.ClaimReadsItsRow | storage/storage.go:1211-1275 | under the worker's discipline a claim reads its own row, a least pending one |
| EventQueue.StepKeeps | agent/pulse.go:196-506 | every step keeps the discipline and moves no event's status back |
| EventQueue.QueueIsSafe | agent/pulse.go:196-506 | for every interleaving nothing is left in processing between ticks, every claim returns the row it updated, and no event is claimed twice |
| EventQueue.FinishIs | agent/pulse.go:325-506 | after every run, finishing the claimed event leaves it completed with errors exactly if its priority is 0 or 1 and its broadcast failed, in the background exactly if it is 2 or 3 and works there, and completed otherwise; no other row changes |
| EventQueue.MoveIs | agent/pulse.go:196-463 | after every run, what each other move does to the tables: an add takes a fresh id, a claim marks one least pending row, a background completion only changes an event that was in the background, clearing removes just the old rows |
| EventQueue.PeekIsPossibleIff | agent/pulse.go:199-220 | an idle worker goes on to claim exactly when some pending priority is at most 3 and none is negative |
| EventQueue.ClaimIsPossible | agent/pulse.go:199-232 | and then the claim succeeds |
| EventQueue.StandsStillIff | agent/pulse.go:296-322 | the idle worker's moves change nothing if and only if that condition fails |
| EventQueue.NegativeBlocksForEver | agent/pulse.go:296-322 | with a negative pending priority nothing is ever claimed again, whatever is added, completed or cleared |
| EventQueue.TwoWorkersShareAnEvent | storage/storage.go:1211-1275 | two workers can both be handed one event |
| EventQueue.PulseHandler.AddEvent | agent/pulse.go:509-514 | an event is added as pending, with a priority out of range turned into 2 |
| EventQueue.PulseHandler.PeekNextEvent | storage/storage.go:1278-1298 | a least pending event, or none if nothing is pending |
| EventQueue.PulseHandler.ClaimNextEvent | storage/storage.go:1211-1275 | with nothing in processing, the event returned is a least pending one and the only one changed |
| EventQueue.PulseHandler.ProcessEvent | agent/pulse.go:325-506 | the event ends completed with errors exactly if its priority is 0 or 1 and the broadcast failed, in the background exactly if it is 2 or 3 and works there, and completed otherwise; no other row changes and the handler is idle again |
| EventQueue.PulseHandler.Tick | agent/pulse.go:196-237 | one heartbeat leaves at most one event so, a least pending one, and no other row changed; it changes nothing only if there was none to process |
| Subtasks.CounterKeptIff | storage/storage.go:1855-1913 | the transaction keeps the completed counter equal to the number of completed subtasks if and only if the subtask was not completed before |
| Subtasks.RunOneIs | agent/task_split.go:199-230 | one round completes exactly one subtask, and the status of the task is completed exactly when the counter reaches the total |
| Subtasks.DerivedThroughout | agent/task_split.go:177-250 | in every state the loop passes through, inside a round too, the counter is the number of completed subtasks and the status is completed exactly when it has reached a positive total |
| Subtasks.AfterRounds | agent/task_split.go:177-250 | a new task after n rounds: the first n subtasks are completed with their results, the others pending, the task pending before the first, completed after the last and running between; within a round its subtask and the task are running |
| Subtasks.RoundsEnd | agent/task_split.go:177-250 | every round takes one pending subtask, and the loop ends after as many rounds as there were |
| Subtasks.RunAllIs | agent/task_split.go:177-250 | in the end each pending subtask is completed with its own result and no other was touched |
| Subtasks.SplitTaskCompletes | storage/storage.go:1734-1769 | a new task ends with all subtasks completed, and with status completed exactly if it has any |
| Subtasks.PromptsInOrder | agent/task_split.go:177-250 | each pending subtask is sent to the model once, in index order |
| Subtasks.TaskStore.ExecuteSubtasks | agent/task_split.go:167-268 | the loop completes all that is pending and then always fails: the results are dropped and the task is marked failed |
| EnvConfig.WritableIsRead | pkg/config/env.go:21-34 | a written line is read as its entry |
| EnvConfig.PaddedLine | pkg/config/env.go:21-34 | white space round the key and round the value is no part of them, and the first `=` ends the key |
| EnvConfig.NoEntryIff | pkg/config/env.go:21-29 | a line is no entry exactly if it has no `=` or its first visible character is `#` |
| EnvConfig.WrittenIsLines | pkg/config/env.go:47-55 | the text written is one line of key, `=` and value for each key in order, each ended by a line break |
| EnvConfig.WrittenIsReadIff | pkg/config/env.go:14-56 | reading a written map gives it back, in every order of the keys, if and only if it is well formed |
| EnvConfig.EntryIsWritable | pkg/config/env.go:21-34 | an entry found on any line could have been written |
| EnvConfig.ReadIsWellFormed | pkg/config/env.go:14-37 | whatever the file holds, what is read is well formed |
| EnvConfig.RereadIsStable | pkg/config/env.go:14-56 | reading, writing and reading again is reading once, for every file |
| EnvConfig.LastEntryWins | pkg/config/env.go:20-36 | the value of a key is that of its last entry before the first overlong line |
| EnvConfig.EnvFile.ReadEnvConfig | pkg/config/env.go:14-37 | the scanner loop reads the file; a missing file is the empty map |
| EnvConfig.SortStrings | pkg/config/env.go:47-51 | all keys once, each before the next in the order of strings |
| EnvConfig.BeforeIff | pkg/config/env.go:51-51 | that order: a proper beginning comes first, and otherwise the string with the smaller character where they first differ |
| EnvConfig.EnvFile.WriteEnvConfig | pkg/config/env.go:40-56 | the file holds one line per key in sorted order, and is read back as the map if and only if the map is well formed |
| EnvConfig.EnvFile.MergeEnvConfig | pkg/config/env.go:59-65 | the file then reads as before, overridden by the updates, if and only if the updates are well formed |
| ToolStream.MergeStream | agent/agent_stream.go:146-210 | the loop over fragments and the final pass compute the merge |
| ToolStream.InOrderIsRight | agent/agent_stream.go:172-210 | if new indices come as 0, 1, 2, ..., call i gets exactly the fragments tagged i, in order, and there are as many calls as indices |
| ToolStream.RightIffInOrder | agent/agent_stream.go:172-210 | for a sequence of indices the merge is right for all contents if and only if new indices come in that order |
| ToolStream.WherePieceGoes | agent/agent_stream.go:172-191 | the piece of the first fragment out of order becomes for good the arguments of the next call in order if its index is too large, and is dropped if it is negative |
| ToolStream.WrongAt | agent/agent_stream.go:172-191 | if that piece is the only one that is not empty, the merge is wrong |
| CommandArgs.ParseCommandArgs | tools/process.go:478-513 | the scan with its quote state computes the arguments, or the text itself if there are none |
| CommandArgs.QuotedIsUnquoted | tools/process.go:478-513 | arguments spelled in bare, double-quoted and single-quoted pieces come back without their quote characters, and without the arguments that consist of nothing else |
| CommandArgs.RoundTripIff | tools/process.go:478-513 | for every spelling the arguments are parsed back if and only if none contains a quote character |
| CommandArgs.ApostropheIsLost | tools/process.go:486-493 | `"it's"` is parsed as `its` |
| CommandArgs.NoQuotesComeOut | tools/process.go:486-493 | no argument that is parsed contains a quote, unless the text itself is the answer |
| Thinking.ParseThinkingBlocks | agent/thinking.go:134-164 | the loop ends on every text and computes the blocks and the remainder |
| Thinking.NothingIsLost | agent/thinking.go:134-164 | putting the blocks back into the remainder, each at its place and in its tags, gives the text; so the lengths add up |
| Thinking.TagsAreGone | agent/thinking.go:134-164 | the remainder holds no open tag, even if taking out a block made one, and no block holds a close tag |
| Thinking.SecondPassIsIdle | agent/thinking.go:134-164 | a second pass extracts nothing |
| Thinking.RoundTripIff | agent/thinking.go:134-164 | an answer of texts and blocks is taken apart into exactly them if and only if the joined text holds no open tag and no block a close tag |
| Thinking.FinalAnswerIsFinal | agent/thinking.go:213-216 | the final answer is trimmed, holds no open tag, and is its own final answer |
| Thinking.FinalAnswerIs | agent/thinking.go:213-216 | the final answer of a printed answer is the trimmed text around its blocks, under the condition of the round trip, and a text without an open tag is only trimmed |
| VectorCodec.SerializeVector | memory/vector_store.go:1440-1447 | the buffer is filled with the little-endian bytes of every word |
| VectorCodec.DeserializeVector | memory/vector_store.go:1586-1597 | every four bytes make a word, and a blob of another length has no vector |
| VectorCodec.VectorRoundTrip | memory/vector_store.go:1440-1447 | reading what was written gives every vector back, bit by bit |
| VectorCodec.BlobRoundTripIff | memory/vector_store.go:1586-1597 | writing what was read gives the blob back if and only if its length is a multiple of four |
| VectorIndex.UsableConcat | memory/vector_store.go:1229-1271 | the rows to load of two pages are those of one page and then of the other |
| VectorIndex.LoadVectorsIntoIndex | memory/vector_store.go:1210-1275 | for every batch size, paging through the table yields the vectors and ids of one filtered pass, after what the index held before |
| VectorIndex.LoadPage | memory/vector_store.go:1240-1261 | a page yields exactly its usable rows, all of the index's dimension |
| VectorStore.VectorMemoryStore.AddToIndex | memory/faiss_hnsw.go:103-127 | all vectors are added, or none if one has another dimension |
| VectorStore.VectorMemoryStore.StoreWithSource | memory/vector_store.go:591-636 | index, row and label in this order; a refused row leaves its vector in the index |
| VectorStore.VectorMemoryStore.StoreAll | memory/vector_store.go:471-587 | the entries whose rows are taken: their rows, then all their vectors and labels, or no vector if one does not fit; their ids are returned |
| VectorStore.VectorMemoryStore.UpdateRow | memory/vector_store.go:638-681 | the row is updated, with the old vector if the text is blank, and the index is rebuilt |
| VectorStore.VectorMemoryStore.DeleteRow | memory/vector_store.go:1123-1167 | the row and its label go, its vector stays |
| VectorStore.VectorMemoryStore.RebuildHNSW | memory/vector_store.go:1169-1202 | index and labels are replaced by those of one pass over the table |
| VectorStore.VectorMemoryStore.HnswSearch | memory/vector_store.go:813-871 | the rows behind the labels that are in range, found and good enough, in order |
| VectorLabels.LoadedIsAligned | memory/vector_store.go:1210-1275 | after loading an empty index every label leads to the row of its vector |
| VectorLabels.BatchAligned | memory/vector_store.go:562-573 | a batch that fits keeps that |
| VectorLabels.StepKeeps | memory/vector_store.go:524-681 | index size is labels plus vectors without one; with none of these, all labels are right after every step |
| VectorLabels.AlignedIff | memory/vector_store.go:524-681 | after any run of stores, batches, updates, deletions, refused rows and rebuilds, every label leads to the row of its vector if and only if no vector was left without a label since the last rebuild |
| VectorTable.StoreIs | memory/vector_store.go:591-636 | a store under a fresh id puts the vector into table, index and labels, other rows staying, or changes nothing if it has another dimension |
| VectorTable.UpdateIs | memory/vector_store.go:638-681 | an update with an embedding leaves the row holding that vector, without one the vector it held; every id keeps its place, and after the rebuild the row's label leads to that vector if and only if it has the index's dimension |
| VectorTable.DeleteIs | memory/vector_store.go:1123-1167 | a deletion takes away the row and its label and no other; the index stays |
| VectorTable.BatchIs | memory/vector_store.go:471-587 | after a batch every entry that was not refused is found with its vector and every other lookup is answered as before; index and labels grow by all of them or not at all |
| VectorTable.LoadedHolds | memory/vector_store.go:1210-1275 | after one pass a row is listed exactly if its vector has the dimension, and its label leads to that vector |
| VectorLabels.SyncedStepIff | memory/vector_store.go:524-681 | from the state one pass would load, a step leads to the state one pass over the new table would load exactly when it is benign: no refused row, no listed row deleted, no batch of mixed dimensions, no preloaded index |
| VectorLabels.SearchIsRight | memory/vector_store.go:832-842 | with all labels right, a search returns the rows of exactly the vectors that matched |
| VectorLabels.RefusedVectorMisleads | memory/vector_store.go:604-632 | after a refused row, the next stored row's label leads to it exactly if the two vectors are equal |
| VectorLabels.DeleteShifts | memory/vector_store.go:1136-1148 | after deleting the row of label k, a later label is right exactly if its vector equals the next one |
| Strings.TrimSpaceIs | pkg/config/env.go:22-32 | trimming removes only white space, at the ends, and all of it there |
| Strings.TrimPadded | pkg/config/env.go:22-32 | white space put around a trimmed text is what trimming takes off |
| Strings.SplitJoin | tools/apply_patch.go:74-74 | splitting joined lines gives the lines |
| Strings.JoinSplit | tools/apply_patch.go:370-392 | joining split lines gives the text |
| Strings.WordsOfJoin | cron/cron.go:519-519 | the fields of words joined by spaces are the words |
| Strings.AtoiOfItoa | cron/cron.go:571-617 | a printed number is parsed back |

## Left out

- MessageCrash.NoMessageIsArchivedTwice: KeepMessages stays the same over a run; a run that changes it is not modelled.
- MessageLog.RunIsLog: a compaction is one step; a message posted between its statements, which the source's lock does not prevent, is not modelled, nor are NUL bytes or collations in the LIKE pattern.
- CronRun.NextCronIsLater: timezones other than UTC, times before 1970 and the 64-bit overflow of `*/9223372036854775807` are not modelled; NoReply stands for the month loop running for ever.
- CronSchedule.CalculateNextRun: the parsing of one-off times is a parameter, and times do not overflow 64 bits.
- Patch.PatchRun.ApplyPatch: directories, links, file permissions and the wording of reports are not modelled; a file is a regular file with readable text.
- PatchText.PrintedPatchApplies: the empty path is taken to be the working directory, which no path of the patch names.
- EnvConfig.EnvFile.WriteEnvConfig: invalid UTF-8 is not modelled.
- CommandArgs.RoundTripIff: invalid UTF-8, which the source replaces, is not modelled.
- Slots.LimitsHold: the counters do not wrap at 32 bits.
- EventQueue.QueueIsSafe: events of type hook are left out, since the claim does not read the type column; the locks and `Trigger`, which runs a tick outside the heartbeat, are not modelled.
- Subtasks.TaskStore.ExecuteSubtasks: the key-value cache, times and process logs are not modelled.
- VectorStore.VectorMemoryStore.DeleteRow: the rebuild it schedules is a later event of its own.
- VectorStore.VectorMemoryStore.StoreWithSource: so is the rebuild it starts when its row is refused.
- VectorStore.VectorMemoryStore.StoreAll: and the one it starts when the index refuses the vectors.
- VectorStore.VectorMemoryStore.RebuildHNSW: loading and swapping are one step; a store between the two, which the source allows in the background, is not modelled.
- VectorStore.VectorMemoryStore.HnswSearch: distances are scored and compared outside the model, and a missing index with its linear search is left out.
- VectorCodec.VectorRoundTrip: floats are their bit patterns.
- pruneMessages, handleContextOverflow and estimateTokens: heuristics over token counts.
- HTTP, gRPC and WebSocket framing, channels, browser and image tools, the full-text index and hybrid ranking: no invariant of their own.
- Cron job execution, job files and run history: plain bookkeeping.
- StripThinkingTags, FormatThinkingForMarkdown, tool policies and CLI commands: only easy members.
