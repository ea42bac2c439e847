# Verification of the repair-service back end

A Dafny 4.11 project about the parts of the service in which state or arithmetic is hard to get
right. Database tables are maps, sequences or sets in class fields, SQL statements are whole-table
updates, and every awaited statement of the campaign worker is one atomic step. `dafny verify
dfyconfig.toml` checks everything.

- **Offers** (`EditDistance`, `Offers`): the two-row Levenshtein loop over 32-bit cells computes the
  cost of a cheapest edit script. The distance is a metric, so swapping the arguments is right, the
  change percentage is a share, and the version bump follows from it.
- **History** (`HistoryValues`, `HistoryDiff`, `HistoryReplay`, `HistoryTables`, `HistoryGraph`,
  `HistoryChain`, `HistoryStore`, `EntityHistory`, `EventParts`): the append-only change log, the index
  of current values that is always the replay of that log, the diff between records, the lineage
  graph under cascading deletes, the bounded walk over it, the hash chain, and both searches.
- **Campaigns** (`CampaignWorkers`, `CampaignMessages`, `CampaignJobHandler`, `CampaignSplit`): the worker
  protocol as a state machine with any number of workers, retries, crashes and service calls; which
  recipients got a message; the handler as a program proved to be one worker of that protocol; and
  the A/B split.
- **Status reconciliation** (`StatusReconcile`): the script that folds child statuses onto those of the
  mother branch, with its effect on paths of transitions and on permissions, and its idempotence.
- **Ordered lists and category trees** (`SortOrder`, `CategoryForest`, `CategoryCatalog`): moving rows
  by shifting a range of sorts, and the guards that keep category tables closed for the breadcrumb
  and descendant queries.
- **Analytics** (`Analytics`): grouped counts become a report that conserves every count.

Some expected properties do not hold of the code. For each the project gives a failing input and the
exact condition: moving an ordered row back after a clamped move (`ClampedMoveBackRestores`), names of
phone categories after an update that empties them (`PatchKeepsNames`), every user getting an A/B
variant (`AllAssigned`), a recipient marked sent having got a message (`SentGotMessage`), a single
line of hash links (`LineIffInOrder`, `LineIsForcedByTimes`), the hash fixing all fields
(`HashFixesMiddle`), and statuses without types matching only by equal names (`NamesAreTold`).
Flattening is faithful on records with dot-free keys, no empty objects and no object under an empty
outermost key (`FlattenIsFaithful`); once such objects are allowed it tells no record but the empty
one (`OnlyEmptyIsTold`). Where a state can be left for good (a crashed worker's recipient) that is a
theorem too. `Wrappers` holds the optional value all modules share.

## Model

| member | source | states |
|---|---|---|
| EditDistance.DistanceIsOptimal | src/offers/offers.service.ts:158-184 | the number the table recurrence defines is the least cost over all insert, delete and substitute scripts from one string to the other, and some script attains it |
| EditDistance.NoCheaperScript | src/offers/offers.service.ts:158-184 | whatever script turns one string into another costs at least the distance |
| EditDistance.CheapestScript | src/offers/offers.service.ts:158-184 | a script of exactly that cost exists and runs |
| EditDistance.Symmetric | src/offers/offers.service.ts:162 | the order of the arguments does not matter, which is what the argument swap relies on |
| EditDistance.LengthBounds | src/offers/offers.service.ts:146-184 | the distance lies between the difference of the lengths and the larger length |
| EditDistance.ZeroIffEqual | src/offers/offers.service.ts:158-184 | distance 0 means equal strings, and conversely |
| EditDistance.Triangle | src/offers/offers.service.ts:158-184 | the detour over a third string is never shorter |
| EditDistance.LargestDistance | src/offers/offers.service.ts:146-184 | the distance reaches the larger length exactly when no script from the shorter text to the longer keeps more characters than it deletes |
| Offers.CellFits | src/offers/offers.service.ts:164-167 | every cell is at most the larger of its prefix lengths, so an Int32Array never overflows for strings shorter than 2^31 |
| Offers.LevenshteinDistance | src/offers/offers.service.ts:158-184 | two rows that are swapped in place, with the argument swap, return the distance; every store into a cell is in range |
| Offers.CalculateChangePercentage | src/offers/offers.service.ts:146-156 | times the larger length it is a hundred times the cost of any script that no other one undercuts, and 0 for two empty texts; it lies in [0, 100] and is 0 exactly for unchanged content, a missing content reading as empty |
| Offers.PercentageIsCost | src/offers/offers.service.ts:146-156 | a script that no other one undercuts exists, and the percentage of the larger length is a hundred times its cost |
| Offers.PercentageIsShare | src/offers/offers.service.ts:146-156 | the percentage does not depend on which text is old, and is 100 exactly when there is a text and no script from the shorter to the longer keeps more characters than it deletes |
| Offers.SmartIncrement | src/offers/offers.service.ts:124-144 | with k the cost of a cheapest script and M the larger length: the next major version exactly when 100k > 70M, the next minor one when M > 0 and 20M <= 100k <= 70M, else the next patch, each the least newer version of its kind; a version without three parts restarts at 1.0.0 |
| HistoryGraph.WalkFindsSimplePaths | src/history/history.service.ts:1150-1182 | the rows of the recursive query are exactly the simple undirected paths of at most the given length |
| HistoryGraph.Shorten | src/history/history.service.ts:1168-1174 | any walk can be replaced by a simple path that is no longer, so never entering a node twice loses nothing |
| HistoryGraph.WalkVisitsBall | src/history/history.service.ts:1146-1185 | the nodes stood on are exactly those within the depth |
| HistoryGraph.WalkReturnsIncidentEdges | src/history/history.service.ts:1176-1180 | the edges returned are exactly those that touch such a node |
| HistoryGraph.WalkGraphIsBall | src/history/history.service.ts:1146-1206 | nodes and edges of the whole result in terms of undirected distance; both ends of every edge are among the nodes |
| HistoryChain.EventLog.Append | src/history/history.service.ts:372-409 | an event is appended with the hash of its own fields and its link, the link is the hash of an event that no other exceeds in time of occurrence, then of creation, and the log stays a log of such events |
| HistoryChain.HashInputText | src/history/history.service.ts:1614-1630 | the hashed text is the eleven fields in order with a separator between each two, an absent link reading as empty |
| HistoryChain.SplitAtEnds | src/history/history.service.ts:1614-1630 | the first and the last field of a joined text can be recovered, whatever stands between |
| HistoryChain.HashFixesIdAndLink | src/history/history.service.ts:1614-1630 | equal hashes mean the same event id and the same previous hash |
| HistoryChain.JoinFixesFields | src/history/history.service.ts:1614-1630 | fields without the separator are told by their joined text, among all lists of as many fields |
| HistoryChain.HashFixesMiddle | src/history/history.service.ts:1614-1630 | the hash of an event fixes its middle fields, among all events with as many, exactly when none of them has the separator |
| HistoryChain.MiddleFieldsAreAmbiguous | src/history/history.service.ts:1614-1630 | the failing input: nine fields that differ in source name and request id and have the same hash |
| HistoryChain.LinkIsUnique | src/history/history.service.ts:372-409 | every event but the first links to exactly one event, which was inserted earlier |
| HistoryChain.EqualHashesEqualChains | src/history/history.service.ts:372-409 | equal head hashes mean equal sequences of event ids back to the root, across logs |
| HistoryChain.IncreasingTimesMakeALine | src/history/history.service.ts:372-380 | times (occurred, then created) that strictly increase up to the last event but one make the links a single line |
| HistoryChain.LineIffInOrder | src/history/history.service.ts:372-380 | without ties the links form a single line exactly when all events but the last are in time order |
| HistoryChain.LineIsForcedByTimes | src/history/history.service.ts:372-380 | ties included: every log of the same events is a single line exactly when all but the last come strictly one after the other |
| HistoryChain.LineIsInOrder | src/history/history.service.ts:372-380 | a single line means that all events but the last are in time order |
| HistoryChain.BackdatedEventForks | src/history/history.service.ts:372-380 | the event after one dated back behind any earlier event links past it, so the log is no line |
| HistoryChain.BackdatedLog | src/history/history.service.ts:372-380 | the failing input: events at times 1, 5, 3 and 6, the last linked to the second |
| HistoryChain.ShaExists | src/history/history.service.ts:1610-1612 | the assumptions on the hash function can be met |
| HistoryValues.SearchHashes | src/history/history.service.ts:1461-1480 | the hashes are exactly those of the normal forms of the term under the type given, or under every type but null and file if none is, a phone also in its Uzbek form |
| HistoryValues.NormalFormIs | src/history/history.service.ts:1495-1572 | the normal form of a raw value, type by type, and the only one |
| HistoryValues.PhoneFormIsStable | src/history/history.service.ts:1542-1559 | normalising a phone again changes nothing |
| HistoryValues.UzbekNumbersMeet | src/history/history.service.ts:1461-1559 | all writings of an Uzbek number, with or without country code, signs and spaces, have one normal form, and a search for one finds the hash of any other |
| HistoryValues.PreparedIsKept | src/history/history.service.ts:1402-1459 | which columns are kept of a value under each redaction, and that no others are |
| HistoryValues.HashOnlyHidesText | src/history/history.service.ts:1429-1438 | under hash_only, values with one normal form and one reference leave the same trace, whatever their texts and labels |
| HistoryValues.SearchFindsStored | src/history/history.service.ts:1402-1480 | under every type, normaliser and redaction but omission, the hash stored for a raw value, of a reference its key, is among those searched for it, by its type and without one |
| HistoryValues.SearchFindsOnlyEqual | src/history/history.service.ts:1402-1480 | whatever the stored field, a search by hash hits only values that share a normal form with the term |
| HistoryValues.EscapedMatchesPrefix | src/history/history.service.ts:1491-1493 | an escaped term followed by a percent sign matches exactly the texts it starts |
| HistoryValues.PartialSearchIsSubstring | src/history/history.service.ts:705-719 | the pattern of a partial search matches a text exactly when the text contains the term, wildcards and backslashes included |
| HistoryValues.SearchCurrentValues | src/history/history.service.ts:690-733 | a row is found exactly when table and path fit and its hash is searched or, for strings, its normal form contains the trimmed lower-case term |
| HistoryValues.StringIsFoundByItsParts | src/history/history.service.ts:690-733 | a string that is stored as it is is found by every part of it that is not blank, whatever its case |
| HistoryDiff.FlattenEntityValues | src/history/history.service.ts:1037-1053 | the loop with recursive calls and overwriting collects the dotted paths, later entries winning |
| HistoryDiff.LastEntryWins | src/history/history.service.ts:1037-1053 | where several entries give a path a leaf, the last of them wins |
| HistoryDiff.FlattenSound | src/history/history.service.ts:1037-1053 | every flattened path comes from keys that lead to its leaf |
| HistoryDiff.FlattenComplete | src/history/history.service.ts:1037-1053 | every leaf is found at the path of its keys |
| HistoryDiff.FlattenKeepsLeaves | src/history/history.service.ts:1037-1053 | records with dot-free keys and no object under an empty outermost key flatten alike exactly when the same keys lead to the same leaves |
| HistoryDiff.FlattenIsFaithful | src/history/history.service.ts:1037-1053 | if moreover no object is empty, they flatten alike exactly when they are the same record: the same keys at every depth, equal scalars, objects against objects |
| HistoryDiff.TwinUnderEmptyKey | src/history/history.service.ts:1037-1053 | an object under the empty outermost key is always confused: every record flattens like the different one that holds it there |
| HistoryDiff.OnlyEmptyIsTold | src/history/history.service.ts:1037-1053 | so with such objects allowed, among all records with dot-free keys and no empty objects, the flattening of a record tells which one it is exactly when the record is empty |
| HistoryDiff.FlattenConfuses | src/history/history.service.ts:1037-1053 | the failing inputs: with a dotted key, an object under the empty key, or an empty object, two records that are not the same flatten alike |
| HistoryDiff.BuildEntityChanges | src/history/history.service.ts:992-1035 | the loop emits the differences of the two flat records along the listed paths, or along all their paths but created_at and updated_at |
| HistoryDiff.ChangesAreDifferences | src/history/history.service.ts:1009-1032 | a change is emitted for a listed path exactly when its values differ, with both values; none for an equal field of an update |
| HistoryDiff.ChangesFollowPaths | src/history/history.service.ts:1009-1032 | one change per differing path, in the order of the paths |
| HistoryDiff.DiffThenPatch | src/history/history.service.ts:992-1035 | writing the new values over the old record gives the new one on the listed paths, writing the old values goes back, other paths stay |
| HistoryDiff.DefaultDiffCoversAll | src/history/history.service.ts:1003-1007 | without a field list that covers every path but the two system timestamps |
| HistoryDiff.ObjectIsNoPath | src/history/history.service.ts:1037-1053 | a key that holds an object is no flattened path |
| HistoryDiff.NestedFieldRecordsNothing | src/history/history.service.ts:1003-1032 | hence a field list that names a nested object records nothing on an update, and exactly a null-to-null change on an insert or delete |
| HistoryTables.InsertNodeKeeps | migrations/20260426130000_create_history_tracking_tables.js:208-248 | a node for a row that has none keeps the keys of both graph tables |
| HistoryTables.CascadeKeeps | migrations/20260426130000_create_history_tracking_tables.js:208-248 | deleting a row with its node and that node's edges leaves every other row its node and no dangling edge |
| HistoryTables.WalkReachesProducer | src/history/history.service.ts:743-799 | from a current value, at any depth of 1 or more, the walk returns its producing change, that change's event and the edges between them |
| HistoryReplay.ReplayShowsLast | src/history/history.service.ts:674-678 | what a key shows is told by its last tracked change: after any operation but delete and unlink the key is there and shows that change, a new value of null included; after those two it is there exactly when the change carries a hash or a reference |
| HistoryReplay.ReplayTakes | src/history/history.service.ts:1208-1250 | an event that tracks a key once decides what the index shows for it |
| HistoryReplay.ReplaySkips | src/history/history.service.ts:674-678 | an event that does not track a key changes nothing for it |
| HistoryStore.HistoryStore.FindOrCreateNode | src/history/history.service.ts:1271-1302 | every row ends up with exactly one node; a row that has one gets no second |
| HistoryStore.HistoryStore.CreateEdge | src/history/history.service.ts:1314-1337 | an edge between existing nodes, none from a node to itself |
| HistoryStore.HistoryStore.RecordActors | src/history/history.service.ts:417-455 | every actor has a row and a node, joined to the event by an edge of its role |
| HistoryStore.HistoryStore.RecordEntities | src/history/history.service.ts:457-518 | likewise every entity, and a key names the last entity that was given it |
| HistoryStore.HistoryStore.RecordInputs | src/history/history.service.ts:520-569 | likewise every input |
| HistoryStore.HistoryStore.InsertChangeRows | src/history/history.service.ts:573-629 | one log row and node per change, with both values under the field's redaction, before the index is touched |
| HistoryStore.HistoryStore.UpsertCurrentValue | src/history/history.service.ts:1208-1269 | the index advances from the replay of the log before this row to the replay including it; all rows, nodes and edges that are not current values stay |
| HistoryStore.HistoryStore.ClearCurrentValue | src/history/history.service.ts:1214-1228 | clearing a value removes its row, node and edges and keeps the tables in agreement |
| HistoryStore.HistoryStore.WriteCurrentValue | src/history/history.service.ts:1230-1269 | writing a value reuses its row or makes one, and links it to its producing change |
| HistoryStore.HistoryStore.IndexChanges | src/history/history.service.ts:638-679 | one pass brings the index up to the whole log and collects the edges of every change |
| HistoryStore.HistoryStore.CreateEvent | src/history/history.service.ts:352-688 | the log grows by one row per change, column by column as the change and its field say; the index is the replay of the log, every row has one node, every edge joins existing nodes, every value is linked to its producer; actors hang on the event, the event on its entities by their roles, inputs and changes, and every change on the last entity with its key and on every input |
| HistoryStore.EntryIsLogRow | src/history/history.service.ts:573-610 | the columns of a log row, and when it is tracked: by the change, else by the field, else always |
| HistoryStore.RecordedIsJoined | src/history/history.service.ts:411-688 | which edges join the parts of an event, and of which kind |
| EntityHistory.EntriesShow | src/history/history.service.ts:992-1035 | what the log rows of an entity diff make the index show at every path |
| EntityHistory.StringsAreTold | src/history/history.service.ts:1075-1095 | two different strings at a path are shown differently by the index |
| EntityHistory.ChangeIsFieldRow | src/history/history.service.ts:1013-1095 | the log row of a field: its key, operation and inferred type, both values as text, and the key referred to by a string in a reference field |
| EntityHistory.RecordEntity | src/history/history.service.ts:149-274 | recording a diff writes one log row per differing path with the inferred type and both values, hangs them on the event and its entity, and moves the index at those paths and nowhere else; an update without changes writes no event |
| EntityHistory.RecordEntityCreated | src/history/history.service.ts:149-188 | after a creation every path of the record has an insert row from null to its value, and the index shows every plain field: strings and JSON as they are, other scalars printed, null as no text; the event created the entity |
| EntityHistory.RecordEntityUpdated | src/history/history.service.ts:190-233 | every path that changed has an update row with both values; where the index showed the old record it shows the new one, a changed string as it is, and a tracked path that changed is in the index also when its new value is null; without a change nothing is written |
| EntityHistory.RecordEntityDeleted | src/history/history.service.ts:235-274 | every path of the record has a delete row from its value to null, and no tracked field of it is left in the index; the event deleted the entity |
| EntityHistory.RecordLife | src/history/history.service.ts:149-233 | after a creation and any chain of updates the index shows the latest record, every string as it is |
| EntityHistory.RecordRelationChanged | src/history/history.service.ts:276-350 | a link writes the reference as new value, shows it at its field and hangs the event on both entities, linked; an unlink writes it as old value, takes the field out again and hangs the event on both, unlinked; no other field moves |
| EntityHistory.IndexShowsLastChange | src/history/history.service.ts:1208-1250 | in every valid state, for every key: after a last tracked change that is neither delete nor unlink the row is there and shows it, null included; after those two it is there exactly when the change carries a hash or a reference; without a tracked change there is no row |
| EntityHistory.GetValueLineage | src/history/history.service.ts:743-799 | for every current value the lineage holds the producing change and its event, and with the depth asked for, at least 1 and at most 8, exactly the edges at nodes within that distance and the nodes one step further |
| EventParts.ShareAnswers | src/history/history.service.ts:908-964 | what one query for many events brings for an event is an answer to the query for that event alone |
| EventParts.AnswerIsUnique | src/history/history.service.ts:890-906 | without ties there is only one such answer, so the batched and the single reading agree |
| EventParts.GetMultipleEventsParts | src/history/history.service.ts:908-964 | the four loops hand every row to its event, in order, and no row to another |
| CampaignWorkers.ExecKeepsInv | src/campaigns/campaigns.job-handler.ts:45-173 | every step of every worker, of the queue and of the service keeps the invariant, and only the worker that claimed a recipient writes its final status |
| CampaignWorkers.CompletedMeansFinished | src/campaigns/campaigns.job-handler.ts:154-173 | in every interleaving a completed campaign has no pending or processing recipient, though count and write are separate steps, no bot message is sent twice, and a failed recipient got none |
| CampaignWorkers.StatusNeverMovesBack | src/campaigns/campaigns.job-handler.ts:49-55 | a recipient goes from pending to processing to sent or failed, over whole runs |
| CampaignWorkers.DeletedStaysDeleted | src/campaigns/campaigns.service.ts:333-341 | no late worker step brings a deleted recipient back |
| CampaignWorkers.RunsKeepUnderway | src/campaigns/campaigns.job-handler.ts:116-128 | in undisturbed runs every processing recipient is held by a worker, and once all are finished some worker is about to notice |
| CampaignWorkers.JobsDoneMeansCompleted | src/campaigns/campaigns.job-handler.ts:154-173 | after any history, a campaign with a recipient that runs without service calls, and without a crash between a claim and its end, is completed once every recipient had a job that ran to its end |
| CampaignWorkers.HaltedWorkerRests | src/campaigns/campaigns.job-handler.ts:36-43 | while a campaign stays missing, paused, canceled or failed, a worker of it at its start never claims or sends, in any interleaving |
| CampaignWorkers.HaltedCampaignRests | src/campaigns/campaigns.job-handler.ts:36-43 | with no worker past its start, such a campaign keeps the status of every recipient and sends nothing |
| CampaignWorkers.PausedUntilResumed | src/campaigns/campaigns.service.ts:495-530 | pausing it then stops every claim and send until it is resumed, whatever jobs, retries, crashes and other service calls, its own updates included, go on |
| CampaignWorkers.ServiceCalls | src/campaigns/campaigns.service.ts:98-156 | what update, pause, resume and delete do to a campaign and its recipients, and that they touch nothing else |
| CampaignWorkers.CrashStrands | src/campaigns/campaigns.job-handler.ts:49-60 | a crash after the claim leaves the recipient in processing with nobody to finish it |
| CampaignWorkers.StrandedForever | src/campaigns/campaigns.service.ts:519-530 | no retry, resume or later step changes that, and the campaign is never completed |
| CampaignJobHandler.RunningAloneIsARun | src/campaigns/campaigns.job-handler.ts:23-128 | the handler without interference is a run of the protocol that ends |
| CampaignJobHandler.JobsEnd | src/campaigns/campaigns.job-handler.ts:23-128 | no job waits for another: whatever other workers do in between, a worker that gets nine turns is done unless it crashed |
| CampaignMessages.SentGotMessage | src/telegram/telegram.service.ts:25-49 | in every run, a recipient of a bot campaign that is marked sent got its one message exactly when no send call for it came back without delivering |
| CampaignMessages.SentWithoutMessage | src/telegram/telegram.service.ts:25-49 | the failing input: with the messenger off, a recipient ends as sent and no message went out |
| CampaignJobHandler.ClaimedJobOutcome | src/campaigns/campaigns.job-handler.ts:62-128 | after the claim the recipient is marked sent on the SMS branch, which sends nothing, and on the bot branch whenever the messenger's call comes back, with a response or without; every response means a message |
| CampaignJobHandler.JobHandler.Claim | src/campaigns/campaigns.job-handler.ts:49-55 | the conditional update succeeds exactly for a pending recipient of the campaign, and then only that one moves to processing |
| CampaignJobHandler.JobHandler.CheckCampaignCompletionSafe | src/campaigns/campaigns.job-handler.ts:154-173 | the campaign is completed exactly when all its recipients are sent or failed, else moved to sending if it was queued or scheduled |
| CampaignJobHandler.JobHandler.Process | src/campaigns/campaigns.job-handler.ts:23-128 | a job of a campaign that is missing, paused, canceled or failed changes nothing; any other claims its recipient if that is pending, ends it as sent or failed by delivery and answers, counts one message exactly when one goes out, and completes the campaign exactly when all other recipients are finished; all as one protocol worker running alone |
| CampaignSplit.PrepareAbTest | src/campaigns/campaigns.service.ts:343-400 | which check rejects exactly which input; an accepted test keeps the requested variants, adds at most the default one, and its percentages sum to exactly 100 |
| CampaignSplit.OffsetBounds | src/campaigns/campaigns.service.ts:424-429 | rounding down loses less than one user per variant |
| CampaignSplit.FewUnassigned | src/campaigns/campaigns.service.ts:423-440 | fewer users than variants are left without one |
| CampaignSplit.AllAssigned | src/campaigns/campaigns.service.ts:427 | every user gets a variant exactly when no share has to be rounded down |
| CampaignSplit.RoundingDropsUsers | src/campaigns/campaigns.service.ts:427 | one user and two halves: nobody is assigned |
| CampaignSplit.InsertRecipients | src/campaigns/campaigns.service.ts:402-449 | every variant gets exactly its slice of the shuffled users, and the slices are all recipients; without a test every user is one |
| CampaignSplit.SlicesAreDisjoint | src/campaigns/campaigns.service.ts:425-429 | slices of different variants do not overlap |
| StatusReconcile.Database.EnsureMotherBranch | scripts/ensure-repair-order-branch-hierarchy.js:44-81 | the upsert and the update leave the branches under an open, active, protected mother branch without parent |
| StatusReconcile.MotherEnsuredOnce | scripts/ensure-repair-order-branch-hierarchy.js:44-81 | what those statements leave, branch by branch, and that running them again changes nothing |
| StatusReconcile.Database.BuildStatusMap | scripts/ensure-repair-order-branch-hierarchy.js:107-134 | exactly the open child statuses that match an open mother status, by type if either has one and else by their names, are mapped, each to a match that comes last in sort order |
| StatusReconcile.NamesAreTold | scripts/ensure-repair-order-branch-hierarchy.js:7-19 | a status without a type matches only statuses of the same three names exactly when none of them has a colon |
| StatusReconcile.ColonsConfuse | scripts/ensure-repair-order-branch-hierarchy.js:7-19 | the failing input: names new, a:b, c and new, a, b:c match |
| StatusReconcile.MotherStatusesStay | scripts/ensure-repair-order-branch-hierarchy.js:107-134 | renaming leads out of the mapped statuses and leaves mother statuses alone |
| StatusReconcile.PathsSurvive | scripts/ensure-repair-order-branch-hierarchy.js:237-267 | every path of allowed transitions is, renamed and without stutters, a path of allowed transitions afterwards |
| StatusReconcile.NothingNewIsAllowed | scripts/ensure-repair-order-branch-hierarchy.js:237-267 | every transition allowed afterwards was allowed before, as it is or under child names |
| StatusReconcile.FoldIsExactOr | scripts/ensure-repair-order-branch-hierarchy.js:269-375 | a flag is set afterwards exactly when it was set in the row before or in a child row that folds onto it; which rows exist afterwards; rows with no child rows are as before |
| StatusReconcile.FoldIsExactlyFalse | scripts/ensure-repair-order-branch-hierarchy.js:304-368 | when a folded flag is false rather than null, the coalesced columns included |
| StatusReconcile.FlagsAreInherited | scripts/ensure-repair-order-branch-hierarchy.js:136-375 | after folding and completing, which rows exist and which flags are true or false, so no right arises that was not there |
| StatusReconcile.FoldKeepsBooleans | scripts/ensure-repair-order-branch-hierarchy.js:304-334 | where no flag was null none becomes null |
| StatusReconcile.CompletedIsComplete | scripts/ensure-repair-order-branch-hierarchy.js:136-221 | adding the missing combinations creates no new ones, so adding them again changes nothing |
| StatusReconcile.Database.FoldTransitions | scripts/ensure-repair-order-branch-hierarchy.js:237-267 | exactly the renamed transitions of mapped statuses that do not stay in place are added, with their roles; the old ones stay first, and no duplicate arises |
| StatusReconcile.Database.ApplyStatusMap | scripts/ensure-repair-order-branch-hierarchy.js:223-390 | orders move to the mother statuses, so no order points at a mapped status, and exactly the mapped statuses are closed and inactive |
| StatusReconcile.Database.EnsureChildKanbanStatusPermissions | scripts/ensure-repair-order-branch-hierarchy.js:136-221 | existing rows stay; a new one has all 27 flags false and is for an active mother status and an active branch and role that had a row; none is missing |
| StatusReconcile.NoMatchIsLeft | scripts/ensure-repair-order-branch-hierarchy.js:107-134 | after the fold no open child status matches an open mother status, and mother statuses are as before |
| StatusReconcile.Database.Reconcile | scripts/ensure-repair-order-branch-hierarchy.js:392-408 | the whole script: when it does nothing or rolls back; which permission rows exist afterwards, and for each flag when it is true and when false in terms of the rows before; that nothing is then left to do, and that a run with nothing to do changes nothing |
| StatusReconcile.Database.ReconcileTwice | scripts/ensure-repair-order-branch-hierarchy.js:392-408 | a second run leaves every table as the first one left it, maps nothing, and fails exactly when the first does |
| SortOrder.MoveKeepsDistinct | src/repair-order-reject-causes/repair-order-reject-causes.service.ts:220-237 | shifting a range and placing the row keeps sorts distinct, with or without gaps |
| SortOrder.MoveKeepsOrder | src/repair-order-reject-causes/repair-order-reject-causes.service.ts:220-237 | the other rows keep their relative order |
| SortOrder.MoveBackRestores | src/phone-categories/phone-categories.service.ts:398-419 | without a clamp, moving back restores every row exactly when the row did not move or shared its sort with no other |
| SortOrder.MoveReinserts | src/repair-order-reject-causes/repair-order-reject-causes.service.ts:220-237 | on sorts 1..n the move takes the row out and inserts it at the target, and the sorts are 1..n again |
| SortOrder.ClampedMoveOnList | src/repair-order-reject-causes/repair-order-reject-causes.service.ts:208-237 | on sorts 1..n the clamp keeps the target inside and moving back restores |
| SortOrder.ClampedMoveBackRestores | src/repair-order-reject-causes/repair-order-reject-causes.service.ts:208-237 | in general, the exact condition under which a clamped move is undone by moving back |
| SortOrder.GapsBreakMovingBack | src/repair-order-reject-causes/repair-order-reject-causes.service.ts:208-237 | sorts 1 and 5: the last row moved to the front comes back to 2 |
| SortOrder.NextSort | src/common/utils/sort.util.ts:3-17 | one more than the largest sort, or 1 |
| SortOrder.AppendExtends | src/repair-order-reject-causes/repair-order-reject-causes.service.ts:36-49 | a created row keeps sorts distinct and extends 1..n to 1..n+1 |
| SortOrder.DeleteLeavesGap | src/repair-order-reject-causes/repair-order-reject-causes.service.ts:270-278 | deleting leaves 1..n-1 exactly when the last row is deleted |
| SortOrder.RejectCauses.Create | src/repair-order-reject-causes/repair-order-reject-causes.service.ts:27-49 | refused exactly for a name an open cause has in lower case; else appended one after the largest open sort, or at 1 |
| SortOrder.RejectCauses.Update | src/repair-order-reject-causes/repair-order-reject-causes.service.ts:143-171 | a new name is refused exactly when another open cause has it; open names stay distinct |
| SortOrder.RejectCauses.UpdateSort | src/repair-order-reject-causes/repair-order-reject-causes.service.ts:204-237 | the row goes to the wanted position, at least 1 and at most the largest open sort, the open rows between give way by one, and deleted rows and everything but sorts stay |
| SortOrder.RejectCauses.Delete | src/repair-order-reject-causes/repair-order-reject-causes.service.ts:270-278 | the row leaves the open list and no other row changes |
| CategoryForest.AncestorPathIsUnique | src/phone-categories/phone-categories.service.ts:195-207 | a row has at most one path from a root |
| CategoryForest.BreadcrumbReachesRoot | src/phone-categories/phone-categories.service.ts:195-207 | the query yields the path from the root exactly when every row strictly above is open |
| CategoryForest.BreadcrumbIsAncestorPath | src/problem-categories/problem-categories.service.ts:344-355 | for an open category it yields the one root-first path to it, all of it open |
| CategoryForest.LevelsAreDescendants | src/phone-categories/phone-categories.service.ts:27-43 | a finished recursion holds exactly the open rows below and the direct children |
| CategoryForest.GetDescendantIds | src/phone-categories/phone-categories.service.ts:27-43 | the recursion ends and returns the open strict descendants and the deleted direct children, each once |
| CategoryCatalog.Catalog.CreatePhone | src/phone-categories/phone-categories.service.ts:45-126 | which check refuses which call; else an open row one after the largest sort of its siblings; the table stays a forest, open under open, with distinct sibling sorts |
| CategoryCatalog.Catalog.UpdatePhone | src/phone-categories/phone-categories.service.ts:275-345 | which check refuses which call; else exactly the given fields take the given values and all else stays |
| CategoryCatalog.Catalog.DeletePhone | src/phone-categories/phone-categories.service.ts:447-480 | refused exactly for a missing row, an open child or a linked problem; else only the status changes |
| CategoryCatalog.Catalog.UpdatePhoneSort | src/phone-categories/phone-categories.service.ts:384-419 | the row goes to its new sort, its siblings between give way by one, deleted ones included, and nothing else changes |
| CategoryCatalog.Catalog.CreateProblem | src/problem-categories/problem-categories.service.ts:31-145 | which check refuses which call; else an open row one after the largest sort of all, and a root is linked to its phone category |
| CategoryCatalog.Catalog.DeleteProblem | src/problem-categories/problem-categories.service.ts:571-615 | refused exactly for a missing row or an open child; else the row is deleted and a root loses its link |
| CategoryCatalog.Catalog.UpdateProblemSort | src/problem-categories/problem-categories.service.ts:509-543 | the row goes to its new sort, its siblings between give way by one, and nothing else changes |
| CategoryCatalog.PatchKeepsNonemptyNames | src/phone-categories/phone-categories.service.ts:302-345 | an update that passes the check leaves no two open siblings with the same non-empty name in lower case |
| CategoryCatalog.PatchKeepsNames | src/phone-categories/phone-categories.service.ts:302-345 | it keeps all names distinct exactly when no name it empties meets a sibling's empty one |
| CategoryCatalog.EmptyNamesMeet | src/phone-categories/phone-categories.service.ts:302-345 | two updates that empty the Russian names of two roots pass the check and leave equal names |
| CategoryCatalog.InsertKeepsNames | src/phone-categories/phone-categories.service.ts:60-82 | a created category clashes with no open sibling in any language |
| CategoryCatalog.CloseIsSound | src/phone-categories/phone-categories.service.ts:458-466 | with no open child, deleting keeps everything open under open rows |
| CategoryCatalog.CloseNeedsGuard | src/problem-categories/problem-categories.service.ts:585-594 | without that guard it would not |
| CategoryCatalog.TwoUpdatesMove | src/phone-categories/phone-categories.service.ts:403-419 | the two updates are the move among the siblings, and no other list changes |
| CategoryCatalog.TwoUpdatesKeep | src/problem-categories/problem-categories.service.ts:527-543 | they keep the forest, the closure, the distinct sorts and the names |
| CategoryCatalog.MoveBackRestoresTable | src/phone-categories/phone-categories.service.ts:398-419 | from any reachable table, moving a category back restores the table |
| Analytics.PercentIsShare | src/analytics/repair-order-analytics.service.ts:789-792 | the percentage is the share in hundredths of a percent, rounded to the nearest with halves up, and 0 of nothing; it lies in [0, 100] and within 0.005 of the exact one |
| Analytics.SumsCount | src/analytics/repair-order-analytics.service.ts:686-709 | a sum grows by a row exactly when the row is one of those summed |
| Analytics.MapCountsToResponse | src/analytics/repair-order-analytics.service.ts:643-787 | one pass over maps and counters reports, per group and status, the sums over the input rows, with groups found on the way |
| Analytics.RowsAreGroups | src/analytics/repair-order-analytics.service.ts:668-758 | the rows are the defined and the discovered groups, each once |
| Analytics.RowsAreDescribed | src/analytics/repair-order-analytics.service.ts:664-750 | rows are numbered from 1, one per key defined or counted, with id and label of the last definition of the key, else of the first row that names it |
| Analytics.RowCounts | src/analytics/repair-order-analytics.service.ts:726-757 | every count in a row is the sum over its group and status |
| Analytics.ReportConserves | src/analytics/repair-order-analytics.service.ts:697-709 | the groups add up to the total leads and to the input, and per visible status to the summary |
| Analytics.VisibleWithinGroup | src/analytics/repair-order-analytics.service.ts:700-709 | the visible statuses of a group never exceed it, and make it up when all are visible |
| Analytics.PercentsInRange | src/analytics/repair-order-analytics.service.ts:712-757 | every percentage of the report lies in [0, 100] |
| Analytics.PercentsAddUp | src/analytics/repair-order-analytics.service.ts:752-755 | the group percentages add up to 100, give or take 0.005 per group |
| Analytics.RowsAreOrdered | src/analytics/repair-order-analytics.service.ts:726-727 | rows stand by leads, then by the sort of the definition (the largest safe integer without one), then by label |
| Analytics.SortIsStable | src/analytics/repair-order-analytics.service.ts:726-727 | tied groups keep the order in which their keys came up |
| Analytics.TiesKeepTheirOrder | src/analytics/repair-order-analytics.service.ts:664-727 | rows with equal leads, sorts and labels stand in the order in which their keys came up |

## Left out

- Offers.SmartIncrement: takes the numbers of the stored version; a part that is no number (NaN) and the reading of the version text are not modelled.
- Offers.ChangePercentage: real arithmetic; rounding of floating point is not modelled, and neither is a string of 2^31 characters or more.
- Analytics.Percent: exact arithmetic instead of floating point; halves go up as in Math.round.
- Analytics.MapCountsToResponse: counts arrive as natural numbers (Number(x) || 0 is not modelled), locale comparison is a parameter assumed to be a total preorder, and the date range, branch scope and SQL that produce the counts are left out.
- HistoryGraph.WalkGraph: a set of rows; how often UNION ALL repeats a row and the order by creation time are not modelled.
- HistoryChain.EventLog: sha256 is a parameter assumed injective with digests that are non-empty and have no separator; the printed middle fields are given as text; rows without a hash do not occur.
- HistoryValues.NormalizeValue: trimming, lower case, number, date, URL and mask functions are parameters of which nothing is assumed.
- HistoryValues.SearchCurrentValues: the rows found, without their order by time, the paging and the count.
- HistoryDiff.Flatten: arrays, class instances and dates are leaves, and two leaves compare equal exactly when they are the same leaf (JSON.stringify and toISOString taken as injective); the order in which JavaScript lists integer-like keys is not modelled.
- HistoryStore.HistoryStore.CreateEvent: labels, timestamps, confidence, request context and the hash are not in these tables (the hash has its own model); ids come from one counter instead of random UUIDs; an edge set is inserted one edge at a time instead of in one statement.
- HistoryStore.FieldOf: tracked fields are keyed by table and path; the service joins the two with a dot, which is the same as long as no table name has one.
- HistoryStore.HistoryStore.FindOrCreateNode: the references are typed, so the error for a node without a reference cannot arise.
- EntityHistory.RecordEntity: value types and referenced tables are inferred by parameter functions; the entity roles and actors a caller may override are fixed to their defaults.
- EventParts.GetMultipleEventsParts: the early return for no events is the empty map of the general case.
- CampaignWorkers: update, pause, resume and delete of a campaign are one atomic step each, removing jobs from the queue is not modelled (jobs may always be handed out again), and a refused attempt that the Telegram client repeats is one send call.
- CampaignWorkers.JobsDoneMeansCompleted: a campaign without recipients is never completed, so it is excluded; resuming enqueues nothing, so runs with service calls are excluded too, and a crash after a claim is the subject of CrashStrands and StrandedForever.
- CampaignMessages.SentGotMessage: a call that the network cut off may or may not have delivered; which of the two is an input of the step.
- CampaignSplit.InsertRecipients: the shuffle is any permutation; batches of the insert are not modelled; negative percentages are excluded.
- CampaignSplit.PrepareAbTest: percentages are integers that are present.
- StatusReconcile.Database.Reconcile: schema checks, timestamps, names and colours of the mother branch are left out; statuses come with names already trimmed and in lower case.
- SortOrder.RejectCauses: descriptions, activity flags and caching are left out.
- CategoryCatalog.Catalog: stickers, prices, caching and the update of problem categories (which changes no parent, status or sort) are left out; the check that a category is not its own parent never fires in a forest; an operating-system type is a yes or no answer.
- Controllers, guards, validation pipes, Redis caches, PDF rendering, storage, SMS, Telegram and socket clients, rental devices, feature flags, role reconciliation and the telephone webhook: plumbing, foreign calls or single-branch facts.
- Transactions of the CRUD services run one at a time; only campaign workers interleave.
