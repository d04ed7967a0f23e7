# Kawai, modelled in Dafny

Kawai is a board of terminal agents with a plan-execution layer and its own check pipeline. This
project models the parts of it that decide something over many steps, and proves what they promise:

- the plan's dependency graph: the depth-first search for cycles and the search for blocked changes;
- reading logs: pages read backwards from the end of a file, and the bounded cache of parsed lines;
- who owns a terminal window: log polls and a background rematch that share one session table;
- the client of the refresh worker: requests, generations of workers, timers, restarts, disposal;
- the reader of JUnit reports, its entity decoder, and the all-or-nothing merge of a run's reports;
- shell quoting against the POSIX shell's own reading, the unquoter, and the commands made with it;
- the coverable lines of an unloaded file: merged ranges and one sweep of the tokens;
- the session registry and what its subscribers know when it keeps quiet;
- the debounced log watcher on a clock, and the queue of changed paths behind it;
- the gates: the push hook, the CI gate with its one rerun, and the supervision of a plan's change.

Code that changes things step by step is a method or a class here, tied by its `ensures` to a
specification function of the old state, and the properties of whole runs are lemmas about that
function. Concurrency is a sequence of atomic steps in any order: a call up to where it waits, a reply, a
timer. The log poller appears twice, once for what it writes to the table and once for its queue; the two
share no field. Answers of files, git, the database engine, clocks and workers are parameters.

Where the code and its own words differ, the model follows the code:

- `src/shared/planChecks.ts:56-58` speaks of every dependency cycle. One path is reported for each
  dependency that closes a cycle in the order of the search, so two cycles closed by the same dependency
  are not both listed. Every cycle is listed exactly when no two share a closing dependency, as where each
  dependency lies on at most one cycle, provided that no two paths have one key, as where no change name
  holds a NUL, the separator of the keys that drop repeats.
- `scripts/lib/junitReports.ts:118-132` decodes by passes over the whole text. Text that holds a numeric
  reference to the ampersand can be decoded twice; the model says exactly when.
- `src/server/applyCommand.ts:37-51` trims the command before the prompt is put behind it. That can change
  what the command's last words are; the model says exactly when it does not.
- `src/shared/planExecutionGates.ts:58-60` says that a failed run of a rerun workflow waits for its new
  run. The code lets any run of such a workflow wait that completed before the rerun, a passed one too.
- `src/server/logWatcher.ts:11` calls `maxWaitMs` the longest wait before a flush. It is looked at only when
  an event comes; the exact bound adds the quiet period.
- Paging a log backwards loses an empty first line when a page ends right behind it
  (`src/server/logContent.ts:186-196`); the model says exactly when.

## Model

| member | source | states |
|---|---|---|
| PlanDependencies.EdgesAreDependencies | src/shared/planChecks.ts:61 | an edge is exactly a listed dependency on another change of the plan, of the last entry where a name is listed twice; unknown names are dropped |
| PlanDependencies.DependencyCycles | src/shared/planChecks.ts:60-102 | terminates; each reported path is a simple closed walk of real edges from its earliest change back to it, no two have the same key, and there is an order of leaving the changes, with the roots tried in plan order, such that each dependency on a change left later has a path whose only such step it is, reported but for a repeated key, and each reported path is that of a dependency of its own |
| PlanCycles.CyclesAreRepresented | src/shared/planChecks.ts:60-102 | every cycle shares an edge with a path whose key is reported, whatever the names |
| PlanCycles.EmptyIffAcyclic | src/shared/planChecks.ts:60-102 | nothing is reported exactly when the graph has no cycle, whatever the names |
| PlanCycles.CyclesAreCovered | src/shared/planChecks.ts:87-92 | where no two paths of the plan have one key, every cycle shares a dependency with a reported path |
| PlanCycles.AllListedIff | src/shared/planChecks.ts:56-102 | there, every simple cycle is reported exactly when no two are closed by one dependency |
| PlanCycles.EveryCycleIsListed | src/shared/planChecks.ts:56-102 | so where each dependency lies on at most one simple cycle, every simple cycle is reported, rotated to its earliest change |
| PlanCycles.DiamondHidesACycle | src/shared/planChecks.ts:56-102 | with two ways from one change to another and one dependency back, one of the two cycles is reported and the other is not |
| PlanCycles.NulFreeKeysTell | src/shared/planChecks.ts:87-92 | when no name holds a NUL, no two paths have one key |
| PlanCycles.NulNamesCanHideACycle | src/shared/planChecks.ts:87-92 | two names with NULs can give two paths one key, and then a cycle shares no edge with anything reported |
| PlanReport.BlockedDependents | src/shared/planReport.ts:20-32 | terminates and gives, in plan order, exactly the unlanded changes from which a chain of unlanded dependents leads to the change, cycles included |
| LogPaging.ReadChunks | src/server/logContent.ts:137-163 | the chunks read backwards are the file's bytes up to the cursor; reading stopped only at the start or with more line breaks than lines wanted, and not a chunk later than that |
| LogPaging.FindLineStarts | src/server/logContent.ts:169-174 | the starts are position 0 and each position behind a line break, in order |
| LogPaging.LinesInPlainTerms | src/server/logContent.ts:169-183 | the first line ends before the first byte 10 or with the log, less one byte 13 at its end; behind that byte 10 come the other lines |
| LogPaging.ReadLogLineWindowFromEnd | src/server/logContent.ts:118-212 | for every chunk size, limit and cursor: exactly the last `limit` complete lines before the cursor, the start byte at a line start with the rest of the lines left of it, and each line's key its own start; a prefix of one line break gives no line |
| LogPages.PageMakesProgress | src/server/logContent.ts:118-212 | a page that says there is more starts strictly before its cursor, right behind a line break |
| LogPages.ReadPagesBefore | src/server/logContent.ts:118-212 | asking again with each page's start byte terminates with a complete read |
| LogPages.ReadAllPages | src/server/logContent.ts:118-212 | so does reading back from the end of the file |
| LogPages.ReadBeforeGivesLines | src/server/logContent.ts:186-196 | before any line start, the pages joined in file order are the forward lines, without the first one in the one case named |
| LogPages.PagingGivesEveryLine | src/server/logContent.ts:186-196 | paging the whole file gives its forward lines exactly when the file does not begin with an empty line that a page ends right behind; otherwise only that line is missing |
| LogPages.ReadTilesPrefix | src/server/logContent.ts:118-212 | the pages' byte ranges adjoin without gap or overlap from the cursor down to the start |
| LogPages.KeysAreDistinct | src/server/logContent.ts:198-211 | over a whole read each line has a key of its own, growing in file order |
| LogPages.ReaderAgreesIffNoLoneCr | src/server/logContent.ts:56-71 | the stream reader never sees fewer lines than the split at line feeds, and the same lines exactly when no carriage return stands alone |
| LogLineCache.SelectLineWindow | src/server/logContent.ts:36-54 | the window ends at the requested line, or at the end, and holds the `limit` lines before it, fewer only at the start |
| LogLineCache.StreamLineWindow | src/server/logContent.ts:75-113 | one pass that keeps at most `limit` lines gives the same window, for every cursor |
| LogLineCache.Cache.BeginRead | src/server/logContent.ts:224-250 | a hit answers the window of the file's lines and becomes the most recent entry; what is too large goes to the end reader or the stream; the cache keeps its size |
| LogLineCache.Cache.FinishMiss | src/server/logContent.ts:250-262 | whatever other reads did meanwhile, the finished miss is stored last, older entries give way, and the answer is the window of its lines |
| LogLineCache.Cache.EnforceBudget | src/server/logContent.ts:278-287 | evicts from the least recent end until the bytes fit |
| LogLineCache.EvictedIsLongestFit | src/server/logContent.ts:278-287 | what stays is the longest most recent part of the entries that fits the budget |
| LogLineCache.TouchedSound | src/server/logContent.ts:242-248 | a hit loses and adds nothing |
| LogLineCache.FilledSound | src/server/logContent.ts:250-287 | after a miss the accounting is exact, within 16 MiB, and the new entry is there |
| LogLineCache.RunSound | src/server/logContent.ts:214-288 | over any interleaving of hits and finished misses the byte count is the sum of the sizes and within budget, and each entry holds its file's lines |
| LogLineCache.RunByLastUse | src/server/logContent.ts:236-288 | the entries are always in order of last use |
| LogLineCache.EvictionIsLeastRecentlyUsed | src/server/logContent.ts:278-287 | an evicted log was used less recently than each one that stays |
| SessionTable.ActiveBySlug | src/server/db.ts:527-535 | the found row owns a window, has the slug and project, and none such was active later |
| SessionTable.SessionDatabase.ClaimCurrentWindow | src/server/db.ts:419-446 | claims a window exactly for a dormant row and if nobody owns it; then the constraints hold, nobody loses a window, and the claimer is the only new owner |
| SessionTable.SessionDatabase.InsertSession | src/server/db.ts:336-362 | inserts a row exactly when the three uniqueness constraints let it in |
| SessionTable.SessionDatabase.UpdateRow | src/server/db.ts:363-418 | changes the row of that session and no other |
| SessionTable.SessionDatabase.OrphanSession | src/server/db.ts:493-507 | takes the window off one row, whose pin becomes whether it hibernates; the constraints hold and every other owner stays |
| SessionTable.ClaimKeepsUnique | src/server/db.ts:282-293 | a claim keeps session ids, log paths and owned windows unique |
| SessionTable.ClaimTakesNothing | src/server/db.ts:282-293 | a claim takes no window from anybody; the claimer is the only new owner |
| SessionTable.ReleaseOnlyDrops | src/server/db.ts:493-507 | a release drops one session's window and nothing else |
| SessionTable.InsertOnlyAdds | src/server/db.ts:336-362 | an insert adds its own window and changes no other ownership |
| WindowOwnership.WithLogEntry | src/server/logPoller.ts:94-147 | what a log brings to a known session touches neither its window nor its pin |
| WindowOwnership.ExistingStepLawful | src/server/logPoller.ts:771-902 | a log of a known session keeps the constraints and every owner |
| WindowOwnership.SupersedingInsertLawful | src/server/logPoller.ts:933-1041 | in the slug supersede the window and the pin go together to the new session, which has the same slug and project, and no constraint is tripped |
| WindowOwnership.EntryStepLawful | src/server/logPoller.ts:768-1049 | one applied entry keeps the constraints, trips none, and moves a window from an owner only to a new session of the same slug and project |
| WindowOwnership.PollLawful | src/server/logPoller.ts:704-1060 | a whole poll, in whatever state it finds the table, keeps the constraints, trips none, and each owned window stays with its session or goes, with its pin, to one the poll inserted for the same project and slug, which a session without a slug may have been given meanwhile |
| WindowOwnership.PollAnnouncesOwners | src/server/logPoller.ts:768-1049 | a listener that hears only the poll's notifications knows every owner afterwards |
| WindowGains.KnownEntryDoes | src/server/logPoller.ts:771-902 | a log of a known session fills in a missing slug, moves the activity only if the log has grown, notes the size, and changes no other row; a window gained brings its name and a missing launch command and ends the wake |
| WindowGains.GainsIff | src/server/logPoller.ts:158-163 | its session newly owns a window exactly when it had none, is not pinned or began to wake at most ten minutes ago, its log has grown or was eligible, more than a minute has passed since the last attempt, and its log is matched to that window, which nobody owns |
| WindowGains.AttemptIsNoted | src/server/logPoller.ts:786-794 | the cooldown starts anew with each attempt, and only then |
| WindowGains.NewSupersedes | src/server/logPoller.ts:933-1041 | a new session whose slug an owner in its project has takes over the window, pin and name of the one active last |
| WindowGains.NewIsEntered | src/server/logPoller.ts:933-1041 | without such an owner it is entered unpinned with its matched window if that is free; without a window it waits while one of its project may be starting |
| WindowGains.OthersAreSkipped | src/server/logPoller.ts:825-848 | any other log changes nothing: one known to be empty, without an agent or a session id, of a subagent, or with too few tokens |
| WindowGains.PollLetsSleep | src/server/logPoller.ts:704-1060 | through a whole poll a pinned session without a window whose wake did not begin lately stays so |
| OrphanRematch.UnclaimedByName | src/server/logPoller.ts:519-535 | the names of exactly one managed unclaimed window, each with that window |
| OrphanRematch.ByUniqueNameIsUnique | src/server/logPoller.ts:519-535 | there is only one such table of names |
| OrphanRematch.LogPoller.ApplyToExisting | src/server/logPoller.ts:771-822 | the loop body for a known session does what its specification says to table, cooldowns and notifications |
| OrphanRematch.LogPoller.ApplyToNew | src/server/logPoller.ts:904-1041 | so does the one for a new session, slug supersede and failed inserts included |
| OrphanRematch.LogPoller.ProcessMatchResponse | src/server/logPoller.ts:704-1060 | so does the whole loop, and the constraints hold afterwards |
| OrphanRematch.LogPoller.ApplyOrphanRematch | src/server/logPoller.ts:467-566 | content matches first, then the names left, against whatever the table holds by then |
| OrphanRematch.RematchOnlyGives | src/server/logPoller.ts:467-566 | a rematch keeps the constraints, every owner and every pin, and announces what it gives |
| RematchLaws.RematchGives | src/server/logPoller.ts:467-566 | every change of the table is a gift by content or by name, and none is left out: a match is unused only if its window is unknown, claimed or owned or its session has a window; a candidate stays without a window only if no managed untaken window alone has its name or that window has an owner |
| OrphanRematch.RunKeepsUnique | src/server/logPoller.ts:338-582 | over every interleaving of polls, rematches and releases no two sessions own one window and no statement trips a constraint |
| OrphanRematch.OwnersMoveOnlyBySupersede | src/server/logPoller.ts:933-1041 | a step that changes a window's owner is a poll handing it, with its pin, to a session it has just inserted for the same project and slug |
| RefreshWorker.Client.constructor | src/server/sessionRefreshWorkerClient.ts:61-71 | a new client starts one worker, if it can |
| RefreshWorker.Client.Request | src/server/sessionRefreshWorkerClient.ts:72-163 | a request gets an id, a timer and the current generation, or is rejected at once |
| RefreshWorker.Client.HandleMessage | src/server/sessionRefreshWorkerClient.ts:216-225 | a reply of the current generation settles the request it names, any other nothing |
| RefreshWorker.Client.HandleError | src/server/sessionRefreshWorkerClient.ts:175-214 | an error of the current worker fails what waits and starts the next generation |
| RefreshWorker.Client.FireTimer | src/server/sessionRefreshWorkerClient.ts:249-258 | a timer that fires fails its generation and restarts the worker |
| RefreshWorker.Client.FailGeneration | src/server/sessionRefreshWorkerClient.ts:260-271 | exactly the requests of that generation are rejected, in order |
| RefreshWorker.Client.DisposeClient | src/server/sessionRefreshWorkerClient.ts:165-173 | disposal rejects what waits and drops the worker |
| RefreshWorker.NextKeepsInv | src/server/sessionRefreshWorkerClient.ts:72-290 | every step keeps it that each waiting request has the current generation and an armed timer, no timer is armed for anything else, and what was sent is what waits and what settled |
| RefreshWorker.RunKeepsInv | src/server/sessionRefreshWorkerClient.ts:72-290 | so it holds in every run of sends, replies, errors, timers and disposal |
| RefreshWorker.EachRequestOnce | src/server/sessionRefreshWorkerClient.ts:72-290 | each request ever sent waits or has settled, once and not both |
| RefreshWorker.ResolvedByOwnReply | src/server/sessionRefreshWorkerClient.ts:216-225 | a request that settles with a value settles with its own reply, given by the worker it was sent to |
| RefreshWorker.TimerSettles | src/server/sessionRefreshWorkerClient.ts:249-271 | a waiting request has its timer armed, and when that fires nothing waits any more |
| RefreshWorker.StaleReplyIgnored | src/server/sessionRefreshWorkerClient.ts:216-217 | a reply of another generation changes nothing |
| RefreshWorker.DisposedStays | src/server/sessionRefreshWorkerClient.ts:165-173 | after disposal nothing waits, no timer is armed, and no later event changes that |
| RefreshWorker.DisposedSettledAll | src/server/sessionRefreshWorkerClient.ts:165-173 | and each request ever sent has settled exactly once |
| RefreshOutcomes.SendWaits | src/server/sessionRefreshWorkerClient.ts:72-163 | a request of a client that is not disposed and has or can start a worker waits for that worker under a new id with its timer armed; any other changes nothing |
| RefreshOutcomes.ReplySettles | src/server/sessionRefreshWorkerClient.ts:98-118 | a reply of the current worker settles the waiting request it names and no other: a result of its kind resolves it with the payload, one of the other kind rejects it, a failure rejects it as a timeout exactly when it says so |
| RefreshOutcomes.UnknownReplyIgnored | src/server/sessionRefreshWorkerClient.ts:216-219 | a reply that names no waiting request changes nothing |
| RefreshOutcomes.ErrorRejectsAll | src/server/sessionRefreshWorkerClient.ts:188-198 | an error of the current worker rejects all that waits with its message, in order, and the next worker starts if it can |
| RefreshOutcomes.TimerRejectsAll | src/server/sessionRefreshWorkerClient.ts:249-271 | so does an armed timer, with a timeout |
| RefreshOutcomes.DisposeRejectsAll | src/server/sessionRefreshWorkerClient.ts:165-173 | disposal rejects all that waits as disposed |
| RefreshOutcomes.ResolvedIffReplied | src/server/sessionRefreshWorkerClient.ts:72-290 | in every run a request resolves with a value exactly when its own reply with that value, of the worker it was sent to, comes while it waits |
| JUnitReports.FindSuiteFile | scripts/lib/junitReports.ts:250-256 | the file of the innermost suite that has one |
| JUnitReports.ParseJUnitTestEntries | scripts/lib/junitReports.ts:164-248 | the loop over the tags gives what the walk over them, tag by tag, gives |
| JUnitReports.ParsePrinted | scripts/lib/junitReports.ts:164-248 | any forest of suites, cases and other elements, printed as tags and parsed, gives its cases in order, each with the names of exactly the enclosing suites that have a line and a name, outermost first, and the file of the innermost element around it that names one, less a leading `./`; none at all if a case is nameless, has no file or fails |
| JUnitReports.UsableIsBalanced | scripts/lib/junitReports.ts:176-247 | a list comes only from a document with a root and balanced suite tags |
| JUnitReports.FailureMeansNoList | scripts/lib/junitReports.ts:183-240 | a failure or error inside a case means no list, whatever follows |
| JUnitReports.NestedClosesEndNothing | scripts/lib/junitReports.ts:171-199 | a testcase outlives as many closing tags of its own name as elements are open in it, and none of these adds an entry |
| JUnitMerge.ReadPlannedReports | scripts/lib/junitReports.ts:84-108 | the sorted names exactly when the manifest is a list of distinct plain report names; nothing otherwise |
| JUnitMerge.SameReportsIff | scripts/lib/junitReports.ts:279-285 | comparing the two sorted lists tells whether the reports on disk are exactly those planned |
| JUnitMerge.MergeJUnitReports | scripts/lib/junitReports.ts:269-300 | entries exactly when the directory holds just the planned reports, at least one, each readable, parsed and with a test; then all the entries, sorted |
| JUnitMerge.MergedHolds | scripts/lib/junitReports.ts:299 | the merged list is in the comparator's order and loses no entry |
| JUnitMerge.EntryBeforeIff | src/server/checks/testLists.ts:58-63 | entries are ordered by file, then describe path, then name, then status |
| XmlEntities.PassUndoesOne | scripts/lib/junitReports.ts:118-127 | one named pass undoes the escaping of its own character and of no other |
| XmlEntities.UnescapeInvertsEscape | scripts/lib/junitReports.ts:118-127 | decoding inverts the escaping of the five entities of section 4.6 of XML 1.0 for every text, though each pass rescans the one before |
| XmlReferences.PassesGive | scripts/lib/junitReports.ts:118-132 | from any pass on, the passes give the meaning of the pieces when no bare ampersand is read again, and otherwise a shorter text |
| XmlReferences.DecodesIff | scripts/lib/junitReports.ts:118-132 | text of plain characters, entities and numeric references decodes to its meaning exactly when no numeric reference to the ampersand stands before what then reads as an entity or, for a hexadecimal one, as a decimal reference |
| XmlReferences.DecodesWithoutAmpersandReferences | scripts/lib/junitReports.ts:118-132 | so text without such references decodes to its meaning |
| XmlReferences.DigitValueIff | scripts/lib/junitReports.ts:120-132 | a digit counts as its place among the digits of the radix, in either case |
| XmlReferences.NumberIs | scripts/lib/junitReports.ts:129-132 | digits are read from the left, each worth the radix times the next |
| XmlReferences.ReferenceIff | scripts/lib/junitReports.ts:118-132 | a reference is one digit or more and stands for the character of that number, if it is one other than U+0000 |
| XmlEntities.NumericAmpersandDecodesTwice | scripts/lib/junitReports.ts:118-127 | an instance: `&#38;lt;` stands for `&lt;` and comes out as `<` |
| ShellQuoting.LexQuoted | src/server/shellQuote.ts:8-11 | under sections 2.2.1 to 2.2.3 of the POSIX.1-2017 Shell Command Language a quoted text begins exactly that word, if it holds no NUL |
| ShellQuoting.QuotedListIsRead | src/server/shellQuote.ts:8-11 | quoted arguments joined by spaces are read as exactly those arguments if and only if none holds a NUL |
| ShellQuoting.UnquoteInvertsQuote | src/shared/agentToken.ts:6-21 | the repository's unquoting gives back every quoted text |
| ShellQuoting.BareIff | src/server/shellQuote.ts:8-11 | an argument is left as it is exactly when it is not empty and holds only letters, digits and the eight signs |
| ShellQuoting.UnquoteInvertsDoubleQuotes | src/shared/agentToken.ts:15-18 | a text in double quotes, its double quotes and backslashes escaped, is given back too |
| ShellQuoting.OthersAreOnlyTrimmed | src/shared/agentToken.ts:6-21 | a text that no pair of quotes encloses is only trimmed |
| StartCommand.UnwrapBashLoginWrapper | src/shared/agentToken.ts:23-73 | the loops over tokens and flags give what the specification reads |
| StartCommand.UnwrapFindsCommand | src/shared/agentToken.ts:23-73 | a quoted command behind a bash wrapper is found again exactly when a flag asks for a login shell |
| StartCommand.NormalizeFindsCommand | src/shared/agentToken.ts:75-82 | so is it when the whole wrapper was quoted once more |
| CommandLaws.BaseNameIs | src/shared/agentToken.ts:30-32 | the shell is told by what is behind the last slash |
| CommandLaws.BundlesIff | src/shared/agentToken.ts:53-63 | a flag asks for something by a letter exactly when it is a dash and letters, that one among them |
| CommandLaws.ChangeNameIff | src/shared/workspaceValidation.ts:269-272 | the names of changes are the single path segments of 1 to 4096 characters that git takes for a branch |
| CommandLaws.PromptIs | src/server/applyCommand.ts:16-26 | the two agents with an apply command and their commands |
| StartCommand.ComposeAddsOneWord | src/server/applyCommand.ts:37-51 | the prompt is exactly one more word behind the words of the trimmed base, for every base that is read as words and every valid change name |
| PromptWords.ComposeKeepsWordsIff | src/server/applyCommand.ts:37-51 | for every command that is read as words and is not blank, the composed line is read as those words and the prompt exactly when only spaces and tabs are trimmed off and what is left does not end in an odd number of backslashes |
| StartCommand.TrimCutsEscapedBlank | src/server/applyCommand.ts:37-51 | an instance of a command that loses a word: trimming cuts an escaped blank in half and the prompt joins the word before |
| Coverage.MergeRanges | scripts/coverage-all.ts:224-236 | the merged ranges are in order, none touches the next, and they hold the same positions |
| Coverage.PointerFinds | scripts/coverage-all.ts:148-158 | for a position the pointer has been moved to, looking at one range tells whether any holds it |
| Coverage.CollectCoverableLines | scripts/coverage-all.ts:130-169 | for tokens in order, exactly the lines of significant tokens outside every original range, ascending, each once |
| SessionRegistry.EqualForBroadcastIsEquivalence | src/server/SessionRegistry.ts:202-224 | the comparison is an equivalence, however timestamps parse |
| SessionRegistry.EqualIffShownAlike | src/server/SessionRegistry.ts:202-224 | it keeps quiet exactly about sessions of one id, kind and shown fields whose last activities are the same text or in the same half minute |
| SessionRegistry.Registry.SetChatSession | src/server/SessionRegistry.ts:37-40 | puts the chat and emits the list |
| SessionRegistry.Registry.RemoveChatSession | src/server/SessionRegistry.ts:43-49 | removes the chat, and emits only if it was there |
| SessionRegistry.Registry.ReplaceSessions | src/server/SessionRegistry.ts:51-102 | the loops give the specified next sessions, list event and removals |
| SessionRegistry.Registry.UpdateSession | src/server/SessionRegistry.ts:104-122 | patches the session that has the id, in the map that owns it, and emits the result |
| SessionRegistry.NextHolds | src/server/SessionRegistry.ts:56-73 | after a refresh the tmux sessions are those listed that are no chats, each the stored form of the last entry with its id |
| SessionRegistry.AfterKeepsApart | src/server/SessionRegistry.ts:36-122 | calls that give no chat a tmux id, nor the reverse, keep the ids apart and unique |
| SessionRegistry.AfterIsFollowed | src/server/SessionRegistry.ts:36-122 | after every such call, told or kept quiet, a subscriber that applied the events has the registry's ids, and for each a session of the same kind and shown fields whose last activity is the same text or in the same half minute |
| SessionRegistry.SubscribersNeverDrift | src/server/SessionRegistry.ts:36-122 | in every run of such calls that holds of a subscriber that has only the events |
| SessionRegistry.SharedIdsDrift | src/server/SessionRegistry.ts:95-101 | in any state with a shared id it drifts: when the tmux session goes, the chat is lost from view |
| SessionRegistry.AdmissibleIff | src/server/SessionRegistry.ts:36-122 | a call gives no chat a tmux id, nor the reverse, exactly when no run of such calls and refreshes after it makes a subscriber drift |
| SessionRegistry.ReplaceKeepsWhatCounts | src/server/SessionRegistry.ts:155-178 | a refresh never takes a valid last activity back, keeps creation times, and keeps every chat |
| RegistryCalls.RefreshStores | src/server/SessionRegistry.ts:56-73 | a refresh stores the last listed non-chat of each id as listed, with the later of the stored and listed activities and the first known creation time |
| RegistryCalls.QuietIff | src/server/SessionRegistry.ts:75-101 | a refresh tells nobody exactly when the ids stay and each session is shown as before |
| RegistryCalls.ToldByRefresh | src/server/SessionRegistry.ts:95-101 | otherwise it tells the whole list first, and then exactly the sessions that are gone |
| RegistryCalls.UpdateStores | src/server/SessionRegistry.ts:104-122 | a patch reaches the session that has the id, in each field it names, and nothing else |
| RegistryCalls.ChatCallsStore | src/server/SessionRegistry.ts:37-49 | a chat set is the one held and one removed is gone; nothing else changes |
| LogWatching.LogWatcher.HandleEvent | src/server/logWatcher.ts:102-120 | an event adds its path, and flushes or arms the timer again |
| LogWatching.LogWatcher.Flush | src/server/logWatcher.ts:122-141 | a flush disarms and delivers what waits, if anything |
| LogWatching.DeduplicatedHolds | src/server/logWatcher.ts:105 | a batch has each path of its events once and no other |
| LogWatching.StepTells | src/server/logWatcher.ts:102-141 | each step adds to what waits or delivers all of it in time |
| LogWatching.EveryPathIsTold | src/server/logWatcher.ts:102-141 | in every timed run the given log paths fall into consecutive groups, one for each batch, told once and before the first event plus maximum wait, quiet period and timer lateness; the rest still waits, no longer than that, and nothing waits after a stop |
| LogWatching.TheBoundIsReached | src/server/logWatcher.ts:111-119 | that bound cannot be lowered: a run delivers one millisecond before it, for every setting of at least 1 ms |
| PollQueue.LogPoller.constructor | src/server/logPoller.ts:249-259 | the batch size is at least one |
| PollQueue.LogPoller.PollChanged | src/server/logPoller.ts:616-697 | the call up to its wait: paths added once, a first batch taken if no poll is in flight |
| PollQueue.LogPoller.RunDrain | src/server/logPoller.ts:699-702 | a queued drain takes the next batch |
| PollQueue.LogPoller.BeginPollOnce | src/server/logPoller.ts:1067-1081 | a whole poll starts only if none is in flight |
| PollQueue.LogPoller.Reply | src/server/logPoller.ts:693-697 | a settled poll frees the way and queues a drain if paths wait |
| PollQueue.AddAllHolds | src/server/logPoller.ts:616-619 | waiting paths keep their order and stay unique; exactly the new ones come behind |
| PollQueue.RunKeepsInv | src/server/logPoller.ts:616-702 | in every run at most one poll waits for the worker, waiting paths have a poll in flight or a queued drain, and batches are distinct and within the limit |
| PollQueue.NoChangedPathIsLost | src/server/logPoller.ts:616-702 | in every run without a stop or a throwing snapshot a given path still waits or is in a batch the worker got since |
| PollQueue.LossHasACause | src/server/logPoller.ts:622-632 | paths are lost exactly when a batch is taken with the worker gone or the snapshot throwing |
| PollQueue.QuietRunCuts | src/server/logPoller.ts:622-628 | without new paths the batches are the waiting paths in order, cut into full pieces |
| PollQueue.QueueComesToRest | src/server/logPoller.ts:693-702 | without new paths and whole polls every run is short: each step uses up work |
| PollQueue.RestMeansDrained | src/server/logPoller.ts:616-702 | at rest nothing waits, and n paths went out, in order, in n divided by the limit batches, rounded up |
| PushInput.ParsePushInput | scripts/lib/pushCheck.ts:34-47 | all the lines, or the first malformed one and nothing else |
| PushInput.ShaIff | scripts/lib/pushCheck.ts:27 | an object id is 40 or 64 small hexadecimal digits |
| PushInput.ZeroShaIff | scripts/lib/pushCheck.ts:29-31 | a deletion is 40 or 64 zeros and nothing else |
| PushInput.LineIsReadIffWritten | scripts/lib/pushCheck.ts:36-44 | a line is read as a pushed ref exactly when, but for a final carriage return, it is what git writes for it |
| PushInput.FinalCrIsDropped | scripts/lib/pushCheck.ts:37 | one carriage return at the end of a line is no part of it |
| PushInput.WrittenInputIsRead | scripts/lib/pushCheck.ts:34-47 | lines written one below the other are read back as they were |
| PushInput.DirtyPaths | scripts/pre-push.ts:36-54 | the index loop gives the entries' paths, old paths of moves behind them |
| PushInput.StatusIsRead | scripts/pre-push.ts:36-54 | the paths read are those git status listed, so none exactly when it listed none |
| PrePush.GatherFacts | scripts/pre-push.ts:56-77 | the facts are the true ones wherever the decision looks, with the record of each tree looked up once and the status read exactly when a ref needs it, and then once |
| PrePush.DecidePush | scripts/lib/pushCheck.ts:76-134 | any refused ref refuses the push, and then nothing is checked; otherwise one check for all eligible refs, or none if there are none |
| PrePush.RefusalNamesEachRef | scripts/lib/pushCheck.ts:117-124 | a refusal names each pushed ref exactly once |
| PrePush.LazyFactsDecideAlike | scripts/pre-push.ts:59-76 | the facts read lazily decide as the true ones would |
| PrePush.DecisionOfLines | scripts/lib/pushCheck.ts:76-134 | the push is refused exactly when a ref stands in the way, and the tree to check is that of every line that needs it |
| PrePush.RunPrePush | scripts/pre-push.ts:80-107 | at most one full check runs, and exactly when every ref may go and one needs it; the result is 0 exactly when the input is readable and every ref but deletions is on record or is checked and then on record |
| CiGates.RunsByName | src/shared/planExecutionGates.ts:47-52 | the loops give the runs of each name, sorted |
| CiGates.GroupsHold | src/shared/planExecutionGates.ts:47-52 | each name has one group, of exactly its runs as reported |
| CiGates.SortedHolds | src/shared/planExecutionGates.ts:50 | a name's runs come sorted by start, none lost, and runs of equal start stay as reported |
| CiGates.NewestRunsHold | src/shared/planExecutionGates.ts:70 | the run that decides is the one no other started later than, and of equal ones the last reported |
| CiGates.PassIff | src/shared/planExecutionGates.ts:62-95 | it passes exactly when checks were reported, each name's newest run passes, none waits for the rerun, and each floor check is covered |
| CiGates.VerdictIsKind | src/shared/planExecutionGates.ts:62-95 | the kind of every verdict follows from the newest runs alone, failures first, then what is unfinished, then the rerun, then the floor |
| CiAnswers.ClassIff | src/shared/planExecutionGates.ts:12-24 | a conclusion passes or waits exactly if it is one of the eight named ones, in whatever case; any other fails |
| CiAnswers.KindInPlainTerms | src/shared/planExecutionGates.ts:62-95 | the answer's kind: a failure for good, then what still runs, then a rerun, then the floor; half an hour without checks or three hours without an end stop the round |
| CiAnswers.FailShows | src/shared/planExecutionGates.ts:74-79 | a failure shows every run of exactly the names whose newest run fails for good |
| CiAnswers.WaitShows | src/shared/planExecutionGates.ts:80-84 | waiting, and giving up, name exactly the checks whose newest run is still to come |
| CiAnswers.MissingShows | src/shared/planExecutionGates.ts:86-94 | a missing floor is named exactly by the floors that no passing newest run covers |
| CiAnswers.PassShows | src/shared/planExecutionGates.ts:94-102 | a pass names as flaky exactly the names of which a run failed |
| CiGates.AskRerunMeans | src/shared/planExecutionGates.ts:74-84 | a rerun is asked for only before any rerun, with everything finished and every failure of a kind that can be rerun; it covers exactly the failures' workflow runs |
| CiGates.FlakyMeans | src/shared/planExecutionGates.ts:98-102 | a name is flaky exactly when a run of it failed and its newest run passes |
| CiGates.OrderDoesNotDecide | src/shared/planExecutionGates.ts:62-95 | when the runs of each name tied for the latest start bear on the verdict alike, its kind does not depend on the order of the report |
| CiGates.OrderMattersIff | src/shared/planExecutionGates.ts:50-95 | in a report of one name, or whose other names are sure to pass, the order decides exactly when tied latest runs bear differently |
| CiGates.AtMostOneRerun | src/server/plans/execution/executionRounds.ts:214-256 | over any polls of a round at most one rerun is done, none is asked for after it or beside one under way, and another only when the one before failed |
| CiAnswers.EventDoes | src/server/plans/execution/executionRounds.ts:214-256 | a poll answers as the gate does, told of the rerun once it is done, and starts one exactly when that is asked for; while one is under way it says nothing |
| Supervision.StageWaits | src/shared/planSupervision.ts:191-221 | the pushes give every named wait that applies, in order |
| Supervision.NoProgressStall | src/shared/planSupervision.ts:228-239 | a stall exactly when an agent holds the stage, the instruction was delivered, and the deadline has come; it names the episode, the anchor, the deadline, and whether the holder idles |
| Supervision.ChangeSupervision | src/shared/planSupervision.ts:255-302 | the outcome is the first that applies, with its cause, stage and stall; never a stall for lack of progress while a named wait applies; the waits named are all that apply, beside a repeating failure too |
| Supervision.WaitsIff | src/shared/planSupervision.ts:191-221 | a change waits exactly while something holds it or its holder is parked or cooling |
| Supervision.ChangeUnderWay | src/shared/planSupervision.ts:255-302 | for fixed facts the outcome is a line on the clock: waiting until nothing holds it, stalled from one fixed deadline on, running between |
| Supervision.ClockOnlyAdvances | src/shared/planSupervision.ts:255-302 | the clock moves a change under way only from waiting to running to stalled, and any other change not at all |
| Supervision.DeadlineHolds | src/shared/planSupervision.ts:228-239 | a stall comes no sooner than the idle limit and no later than the stage's limit after the last delivery, progress or end of a wait, and later progress never brings it forward |
| SupervisionLaws.DeadlineIs | src/shared/planSupervision.ts:223-239 | the deadline counts from the last of delivery, progress and end of a wait: two hours, one in review, and with an idle holder a quarter of an hour from there or from the end of its last turn |
| SupervisionLaws.NoStallSoonAfter | src/shared/planSupervision.ts:228-239 | nothing stalls for lack of progress within a quarter of an hour after any of them |
| SupervisionLaws.StageIff | src/shared/planSupervision.ts:241-247 | which stage an agent holds: an implementing attempt unless owed, the review, an update under way between steps |
| SupervisionLaws.StalledIff | src/shared/planSupervision.ts:255-302 | a change in progress stalls exactly when two rounds failed alike or, while nothing holds it and its holder does not rest, its agent is past the deadline |
| SupervisionLaws.OtherOutcomes | src/shared/planSupervision.ts:255-302 | each other outcome holds exactly under its own state, waiting also while a change in progress is held or its holder rests |
| SupervisionLaws.WaitsAreThoseThatApply | src/shared/planSupervision.ts:191-221 | a wait is on display exactly when the facts it names hold |
| SupervisionLaws.WaitsAreInOrder | src/shared/planSupervision.ts:191-221 | the waits come in one order of display, at most one of each place |
| SupervisionLaws.PendingNamesHold | src/shared/planSupervision.ts:213-216 | a wait for the checks names exactly those whose newest run is unfinished |
| SupervisionLaws.LastCiIs | src/shared/planSupervision.ts:214 | of the round with the highest number |
| SupervisionLaws.EarlyWaitsHold | src/shared/planSupervision.ts:281-293 | a change not yet provisioned waits for its dependencies, then for an effect, and only without either for the parallel limit |
| SupervisionLaws.ChangesHold | src/shared/planSupervision.ts:282-286 | the dependencies it names are those not landed, and apart those stopped |
| SupervisionLaws.ProgressHolds | src/shared/planSupervision.ts:157-168 | the last progress is a result, a pass of the checks, a verdict, a passed round, the landing or a passed or landed candidate, none of these is later, and it is missing only when there is none |
| Supervision.RepeatingIff | src/shared/planSupervision.ts:179-188 | with distinct round numbers, a repeating failure exactly when the two newest rounds that count both failed with the same signature |
| FailureSignatures.SignatureIff | src/shared/planSupervision.ts:146-150 | two rounds have the same signature exactly when the sorted names of their failing checks, with the review's word, have the same pieces between commas |
| FailureSignatures.SignatureTells | src/shared/planSupervision.ts:146-150 | it is the same exactly when the same checks fail in both and the review fails in both or neither, where no failing name is empty or the review's word and none begins with another and a comma |
| FailureSignatures.PlainNamesStandApart | src/shared/planSupervision.ts:146-150 | names that are not empty and hold no comma never begin with another and a comma |
| FailureSignatures.SignatureConfuses | src/shared/planSupervision.ts:146-150 | two rounds with different failing checks can have one signature: one check named as two others with a comma between, and a check that carries the review's word |

## Left out

- The other checks of a plan's structure (`src/shared/planChecks.ts:105-170`): duplicate names and formats, easy members.
- Decoding lines from UTF-8: a line is its bytes.
- `seedForTest` of the line cache: it overwrites a key without subtracting the old size, and only tests call it.
- A file that changes between its size being read and its bytes: reads see one state of it.
- LogLineCache.Cache.FinishMiss: an await inside the miss is the border of two steps; what the file system does meanwhile is the `lines` parameter.
- SessionTable.ActiveBySlug: among rows of equal last activity the model takes one of them, where the SQL statement leaves the order open.
- SessionTable.SessionDatabase.UpdateRow: writes a whole row where the statement sets named columns; that no constraint is tripped is shown of the rows a poll writes.
- RematchLaws.RematchGives: which sessions a rematch considers, and what its worker matched, are parameters.
- Session columns that no ownership step reads: last user message, exec flag, resume error, wake fields beyond the start time.
- Whether a new session is held back for a window that is still starting: the entry carries that answer; so do the worker's matches.
- The cache of empty logs in the poller: it only skips entries.
- RefreshWorker.Client.constructor: a first spawn that fails leaves a client without a worker; in the original the constructor throws and there is no client.
- The lengths of the refresh worker's timeouts: a timer may fire at any time after it is armed.
- `src/server/logMatchWorkerClient.ts`: its handshake is not tagged by generation, so none of the claims made here for the refresh worker carry over.
- Cutting a document into tags and attributes (`scripts/lib/junitReports.ts:112-160`): the reader starts from tags.
- Numeric references outside the Unicode scalar values: surrogates decode to nothing in the model's `char`.
- StartCommand.ComposeAddsOneWord: speaks of the trimmed command; PromptWords.ComposeKeepsWordsIff says when it has the words of the given one.
- PromptWords.ComposeKeepsWordsIff: a command that is not read as words, such as one with an open quote, has none to keep.
- XmlReferences.DecodesIff: an ampersand that begins neither an entity nor a reference is not well formed and has no meaning to compare with.
- `setAgentSessions` of the registry: a comparison of three lists, no state beyond them.
- SessionRegistry.Registry.UpdateSession: a patch never changes a session's id or kind, as its callers do not.
- SessionRegistry.SubscribersNeverDrift: asks that no chat is given a tmux session's id nor the reverse; AdmissibleIff shows that nothing less will do.
- `Date.parse`: whether and how a timestamp parses is a parameter.
- Which directories are watched (`src/server/logWatcher.ts:81-100`) and callbacks that throw.
- LogWatching.EveryPathIsTold: the clock does not run backwards and timers fire at most a given time late.
- PollQueue.QueueComesToRest: says nothing of runs with whole polls, which a caller can start without end.
- The wording of the push hook's messages: a message is what it names.
- A repository that changes while the hook gathers its facts, and the expiry of records.
- CiGates.EvaluateCi: upper-case letters outside ASCII in a conclusion are not folded; start and completion times are numbers, not yet known ones later than all.
- CiGates.OrderMattersIff: with other names that may fail or wait, a tie can be hidden behind them; then OrderDoesNotDecide still holds.
- CiGates.AtMostOneRerun: the rerun effect is never cancelled here, and each ask starts one; the original inserts effects by a key, so the same ask again in one generation starts none.
- FailureSignatures.SignatureTells: names that go on behind one another with a comma are SignatureIff's matter.
- Supervision.ChangeSupervision: leaves out the fields it only copies (holder, activity, landing, the last round's summary).
- Supervision.RepeatingIff: for rounds of equal number the sort alone decides which is newer.
- Times of supervision are numbers: the original compares ISO texts, which agree with them while all have the same form.
- The planner that acts on the gates' answers, the review verdict, and spawn approval: decision tables, easy members.
- The client, bootstrap, configuration, logging and release code.
