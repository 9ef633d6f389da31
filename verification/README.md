# Verified model of the records store, the event spine, boot reconciliation and connector install

This project models four parts of the repository in Dafny and proves what they are for. Each
modelled method is an ordinary Dafny method with a loop or a state change where the source has
one, proved against a specification; the theorems are about the specification.

**Versioned records with incremental sync** (`personal-server/pdpp`). `GrantScopedRecordsRepository`
keeps three tables per connection and stream: current rows, a change log, a version counter. A
ghost `history`, the log that was never pruned, explains all three (`Valid`), and every read is
stated on it. `RecordHistory` says what a history means, `ChangeSessions` which entries a
`changes_since` session owes, `Replication` that the pages a client receives while the store
changes add up to the granted view, `PrunedSessions` and `PrunedPages` what survives a history
limit, page by page, over whole sessions and over chains of them, `LostChange` what it can cost,
`CurrentPages` how current rows are paged, `CurrentFilters` how they are filtered,
`SnapshotImport` and `SnapshotEnvelopes` what an import does, `FieldSelection` and `FilterLayers` what the layer above
adds. `ChangesClient.Synchronize` runs a whole change
session against the class with other writers between the pages, `CurrentClient.ListAll` reads all
current records.

**Recent correlations and event windows** (`reference-implementation/lib/postgres-spine.ts`).
`RecentCorrelations` proves that the chunked scan with its early stop returns the rows of the
GROUP BY query and exactly when it gives up; `EventWindows` proves what the merged head, tail and
terminal windows of a run have in common with its full log.

**Boot reconciliation** (`reference-implementation/lib/controller-boot.ts`). `BootLog` has the
tables and what a pass may do to them, `BootOutcomes` what that comes to for every start and row,
`BootReconciliation` the passes statement by statement, by
a process that gets through a given number of them before it dies, `BootConvergence` what any
number of such boots amounts to.

**Connector install** (`scripts/resolve-connectors.js`). `ConnectorInstall` has the directory of
transactions, every step of publication, rollback, cleanup and recovery under a schedule that
says which of them happens, fails or is the process's last, and the state all of them keep.

`Orders`, `Paging` and `Wrappers` hold what these share: sorted listings of finite sets, reading a
list page by page, options and results.

## What the proofs found

Properties one might expect that the code does not have in full, each with the exact condition and
an input at which it fails:

- With a history limit a changed, live record can be lost without any refusal. A changes_since
  cursor is tested when a session opens, but a page cursor never is; when pruning passes the rows
  the next page owes, the page is simply empty and the session ends
  (`LostChange.LostBetweenPages`). A whole session is exact if and only if the page that owes it
  sends every change (`PrunedPages.PrunedPagesExactIff`), and a changed live key is not sent if
  and only if its row is gone by then (`LiveMissedIff`). The server itself sets no limit
  (`personal-server/pdpp/resource-server.js`), and then sync is exact.
- With a history limit a deletion is not sent exactly when the key's earlier row was pruned,
  although the cursor is accepted (`PrunedSessions.OnlyTombstonesMissed`, `TombstoneLostExample`).
- A bootstrap page, first or later, lacks exactly the records whose row at the horizon is neither
  logged nor current any more (`PrunedSessions.PrunedBootstrap`, `BootstrapLostExample`).
- A request that `resolveReadContext` accepts is refused by the repository for its fields if and
  only if one of them, or one of the grant's, is the empty name: a schema may declare a property
  `""`, which the repository never takes (`FieldSelection.AcceptedFieldsRefusedIff`,
  `EmptyNameRefused`).
- The comparator of current rows is an order if and only if different cursor strings denote
  different instants; two spellings of one instant are repeated in ascending order and skipped in
  descending order (`CurrentPages.ComparatorIsOrderIff`, `TiedInstantsRepeat`).
- Importing a snapshot twice is silent if and only if its operations on the same key agree on what
  they leave there (`SnapshotImport.ReimportSilentIff`, `ReimportWritesExample`).
- An accepted request may filter by a granted field that it does not select. The repository judges
  filters against the selected fields and row by row, so it refuses such a request if and only if
  some visible row satisfies every entry before that field: the same request is answered on an
  empty stream (`FilterLayers.AcceptedFilterRefusedIff`, `UnselectedFilterRefused`).
- The recent-correlation scan passes over an empty id, which the grouped query returns: they agree
  if and only if there is no such id or more than `limit` ids have a later last event
  (`RecentCorrelations.EmptyIdIff`, `EmptyIdExample`).
- After a finished boot pass a row is still `running` against a terminal log if and only if it was
  running before and the earliest event that had ended its run carries the status `running`
  itself (`BootConvergence.NoRowLeftRunningIff`, `StuckExample`). The runtime emits
  `run.completed` only for runs that succeeded (`reference-implementation/runtime/index.ts:6639-6641`),
  so no such event comes from there.
- `postgres-spine.ts` says its terminal event types are kept aligned with `lib/spine.ts`, but its
  list lacks `run.browser_surface_failed`. The model follows the code: `EventWindows` has four
  terminal types, `BootLog` five. The two lists pick different terminal events exactly when the
  last usable one of the five types is such a failure (`EventWindows.ListsDisagreeIff`,
  `ListsDisagreeExample`).

## Model

| member | source | states |
|---|---|---|
| RecordModel.DisclosureExact | personal-server/pdpp/grant-scoped-records-repository.js:1146-1180 | a row is disclosed if and only if it is live, its id is a granted resource, and under a time range it has a consent time that lies at or after a given since and before a given until; and then exactly its stored, declared and granted fields are, as stored |
| RecordModel.TimeRangeExact | personal-server/pdpp/grant-scoped-records-repository.js:1151-1162 | bound by bound: no consent time, earlier than since, at or after until: not disclosed; between the bounds: as without the range |
| RecordModel.RecordAcceptedIff | personal-server/pdpp/grant-scoped-records-repository.js:897-958 | a live record is accepted if and only if it has its key as id, a value of a declared type for everything required and times that can be read; which error otherwise |
| RecordModel.DeletionAcceptedIff | personal-server/pdpp/grant-scoped-records-repository.js:960-969 | a deletion is accepted if and only if it names a key and a time that can be read |
| RecordHistory.ViewExact | personal-server/pdpp/grant-scoped-records-repository.js:1146-1180 | a key is in the view of a history if and only if its last row meets the grant, with that row's granted fields |
| RecordHistory.ViewInTimeRange | personal-server/pdpp/grant-scoped-records-repository.js:1151-1162 | the time range, bound by bound, on what every read returns |
| RecordHistory.AppendExact | personal-server/pdpp/grant-scoped-records-repository.js:616-713 | row by row what an upsert or a deletion appends: version, payload, time of emission and of deletion, or nothing |
| CanonicalJson.CanonicalIff | personal-server/pdpp/grant-scoped-records-repository.js:1365-1383 | two JSON values have the same canonical form exactly when they are equal up to the order of object keys, at every depth |
| CanonicalJson.CanonicalIsNormal | personal-server/pdpp/grant-scoped-records-repository.js:1369-1377 | the canonical form repeats no key and is its own canonical form |
| RecordHistory.AppendRefinesMap | personal-server/pdpp/grant-scoped-records-repository.js:616-713 | the versioned log refines a plain key-value map: an operation has its effect on the map, and logs a change if and only if it changes the map |
| RecordHistory.HistoryReplays | personal-server/pdpp/grant-scoped-records-repository.js:616-713 | a log is rebuilt, versions included, by replaying the operations its own rows record |
| RecordHistory.WrittenIsShown | personal-server/pdpp/grant-scoped-records-repository.js:250-270 | what is upserted is what a full grant then shows under the key, a deletion shows nothing, and no other key changes |
| RecordsRepository.TablesInStep | personal-server/pdpp/grant-scoped-records-repository.js:616-765 | log versions run without a gap up to the counter, exactly the last min(counter, limit) are kept, each current row equals the logged row of its version, and without a limit the current table is the fold of the log |
| RecordsRepository.StoredRecordsValid | personal-server/pdpp/grant-scoped-records-repository.js:897-958 | after any run of operations every stored record has its own key as id, a value of the declared type for everything required, and readable times |
| RecordsRepository.GrantScopedRecordsRepository.constructor | personal-server/pdpp/grant-scoped-records-repository.js:211-244 | an empty store is valid |
| RecordsRepository.GrantScopedRecordsRepository.Upsert | personal-server/pdpp/grant-scoped-records-repository.js:250-262 | accepted if and only if the place exists and the record is a proper one, and then the key holds its data and no other key or location changes; it is appended and reported with its version; else nothing changes and the first failing check is named |
| RecordsRepository.GrantScopedRecordsRepository.Delete | personal-server/pdpp/grant-scoped-records-repository.js:264-270 | the same for deletions; deleting what is not live logs nothing |
| RecordsRepository.GrantScopedRecordsRepository.WriteRefused | personal-server/pdpp/grant-scoped-records-repository.js:897-969 | when writes are refused, if and only if, and with which check's error |
| RecordsRepository.GrantScopedRecordsRepository.MutateInTransaction | personal-server/pdpp/grant-scoped-records-repository.js:616-713 | one mutation keeps all three tables in step with the full history and touches one location |
| RecordsRepository.GrantScopedRecordsRepository.PruneHistory | personal-server/pdpp/grant-scoped-records-repository.js:753-765 | pruning leaves exactly the last `limit` versions of the full history |
| RecordsRepository.GrantScopedRecordsRepository.ImportSnapshot | personal-server/pdpp/grant-scoped-records-repository.js:277-361 | all or nothing: an error restores every table; otherwise each stream receives its operations in order, reset streams are reconciled, and every key holds what its last envelope asks for, or, not named, nothing in a reset stream and what it held in another |
| RecordsRepository.GrantScopedRecordsRepository.ImportRefused | personal-server/pdpp/grant-scoped-records-repository.js:277-361 | an import is accepted if and only if it names a connection, its metadata is in order and every envelope is proper |
| SnapshotEnvelopes.EnvelopeExact | personal-server/pdpp/grant-scoped-records-repository.js:305-347 | an envelope of its stream without op or with upsert is accepted exactly when its record is proper and asks for its data to be stored; with delete, when it has a key and a readable time, for the deletion; any other is refused |
| SnapshotEnvelopes.SnapshotAcceptedIff | personal-server/pdpp/grant-scoped-records-repository.js:277-361 | all streams known, all values lists, all envelopes proper |
| SnapshotEnvelopes.LastNamedDecides | personal-server/pdpp/grant-scoped-records-repository.js:277-361 | the last operation on a key is that of the last envelope that names it |
| SnapshotEnvelopes.ImportLands | personal-server/pdpp/grant-scoped-records-repository.js:277-361 | after an import a key holds what its last envelope asks for |
| RecordsRepository.GrantScopedRecordsRepository.ReconcileAuthoritativeFullRefresh | personal-server/pdpp/grant-scoped-records-repository.js:720-747 | every live key absent from the refresh, and no other, gets one logged delete |
| SnapshotImport.CheckedSnapshot | personal-server/pdpp/grant-scoped-records-repository.js:976-1029 | when snapshot metadata is accepted, if and only if, and which streams it resets |
| SnapshotImport.StreamStepsIff | personal-server/pdpp/grant-scoped-records-repository.js:277-361 | a stream's envelopes are accepted exactly when each of them is |
| SnapshotImport.StreamStepsInOrder | personal-server/pdpp/grant-scoped-records-repository.js:277-361 | accepted envelopes ask for their own operations, in their order; SnapshotEnvelopes.EnvelopeExact says which |
| SnapshotImport.SnapshotStepsIff | personal-server/pdpp/grant-scoped-records-repository.js:277-361 | an import's records are accepted exactly when every stream is known, holds an array, and every envelope is accepted |
| SnapshotImport.ImportExact | personal-server/pdpp/grant-scoped-records-repository.js:277-361 | afterwards a reset stream's live keys are exactly those whose last operation was an upsert, with that payload; unmentioned keys of other streams are untouched |
| SnapshotImport.RemovalIsLogged | personal-server/pdpp/grant-scoped-records-repository.js:720-747 | a key that stops being live has a logged delete of its own among the new versions |
| SnapshotImport.ReimportSilentIff | personal-server/pdpp/grant-scoped-records-repository.js:720-747 | importing again, reconciliation included, writes nothing if and only if operations on the same key agree |
| SnapshotImport.OncePerKeyRepeatable | personal-server/pdpp/grant-scoped-records-repository.js:277-361 | naming each key at most once is enough for that |
| SnapshotImport.ReimportWritesExample | personal-server/pdpp/grant-scoped-records-repository.js:277-361 | one key named twice with different payloads: importing again writes two more changes |
| Grants.SelectionIff | personal-server/pdpp/grant-scoped-records-repository.js:1056-1140 | which granted and requested fields are accepted, if and only if, which are selected, and which error otherwise |
| Grants.GrantAcceptedIff | personal-server/pdpp/grant-scoped-records-repository.js:1056-1115 | a grant is accepted if and only if its fields are, no resource is empty, and a time range has readable bounds on a stream with a consent time; only its fields change |
| Grants.LimitExact | personal-server/pdpp/grant-scoped-records-repository.js:1206-1213 | a page holds what is asked for, a hundred at most; less than one is refused |
| Grants.NormalizedGrantNarrows | personal-server/pdpp/grant-scoped-records-repository.js:1056-1115 | a normalized grant shows the same records as the grant it came from and never more of them |
| RecordsRepository.GrantScopedRecordsRepository.GetCurrent | personal-server/pdpp/grant-scoped-records-repository.js:363-382 | a single read returns exactly what the granted view of the full history holds under the key |
| RecordsRepository.GrantScopedRecordsRepository.ReadRefused | personal-server/pdpp/grant-scoped-records-repository.js:426-446 | when reads are refused and with which error, and what is left of limit and grant |
| RecordsRepository.GrantScopedRecordsRepository.ListCurrent | personal-server/pdpp/grant-scoped-records-repository.js:426-512 | the rows are those of the granted view that satisfy the filter, unless a visible row refuses it; one page of them after the cursor: as many as fit, each once, with the cursor of the last when there are more; in comparator order wherever the comparator is an order |
| CurrentPages.VisibleIsView | personal-server/pdpp/grant-scoped-records-repository.js:426-512 | the rows that are paged are the granted view of the history, each with the text its record has in the cursor field |
| CurrentPages.ComparatorMeaning | personal-server/pdpp/grant-scoped-records-repository.js:1224-1235 | the order in both directions: rows with a cursor value first, earlier instants first, then keys by code unit |
| CurrentPages.ComparatorIsOrderIff | personal-server/pdpp/grant-scoped-records-repository.js:1224-1235 | the comparator is a strict total order of the stored rows if and only if different cursor strings denote different instants |
| CurrentPages.PagingPartitionsView | personal-server/pdpp/grant-scoped-records-repository.js:426-512 | following next_cursor in either direction visits every visible row exactly once in order, and ends |
| CurrentPages.PageInOrder | personal-server/pdpp/grant-scoped-records-repository.js:426-512 | a page row by row: all after the cursor, each before the next, and what it leaves out after all of them |
| CurrentPages.TiedInstantsRepeat | personal-server/pdpp/grant-scoped-records-repository.js:1263-1269 | without that condition two rows follow each other in ascending order, and neither follows the other in descending order |
| CurrentFilters.JudgeMeaning | personal-server/pdpp/grant-scoped-records-repository.js:1182-1204 | a row refuses a filter exactly when it satisfies every entry before the first that names an undeclared or ungranted field, with that entry's error, and is kept exactly when it satisfies them all and all may be used |
| CurrentFilters.FilterRows | personal-server/pdpp/grant-scoped-records-repository.js:477-487 | the rows that satisfy the filter are kept, or the request fails because a visible row refuses it |
| CurrentFilters.RefusalsAgree | personal-server/pdpp/grant-scoped-records-repository.js:1182-1204 | whichever row is met first, the error is the same |
| CurrentFilters.NothingToRefuse | personal-server/pdpp/grant-scoped-records-repository.js:477-487 | a list without rows refuses no filter, not even one of an undeclared field |
| CurrentClient.ListAll | personal-server/pdpp/grant-scoped-records-repository.js:426-512 | a reader that follows next_cursor through the store gets every row of the granted view that satisfies the filter, each once, in order, for any page size, field selection and direction |
| ChangeSessions.DeltaMeaning | personal-server/pdpp/grant-scoped-records-repository.js:854-879 | an entry is sent exactly when the disclosed data differ, and carries the new data and the times of the change |
| ChangeSessions.EntryOfRow | personal-server/pdpp/grant-scoped-records-repository.js:854-879 | an entry tells of the row its version numbers: its time, the granted fields if it meets the grant, else when it was deleted |
| ChangeSessions.AnswerExact | personal-server/pdpp/grant-scoped-records-repository.js:805-879 | without pruning a session owes an entry for a key if and only if its granted data differ between `since` and the horizon |
| RecordsRepository.GrantScopedRecordsRepository.SessionAgrees | personal-server/pdpp/grant-scoped-records-repository.js:767-803 | the test on the oldest retained version refuses exactly the changes_since cursors some change after which is gone; a page cursor is never tested |
| RecordsRepository.GrantScopedRecordsRepository.ListChanges | personal-server/pdpp/grant-scoped-records-repository.js:514-573 | one page of the session's owed entries in version order, and the cursor that owes the rest |
| RecordsRepository.GrantScopedRecordsRepository.LatestChangesInWindow | personal-server/pdpp/grant-scoped-records-repository.js:836-852 | the latest change of every key in the window, as far as not sent yet |
| RecordsRepository.GrantScopedRecordsRepository.BootstrapChanges | personal-server/pdpp/grant-scoped-records-repository.js:805-834 | the live rows at the horizon that the log or the current table still know |
| Tables.SnapshotLatest | personal-server/pdpp/grant-scoped-records-repository.js:881-894 | the row found before the window is the latest of its key at that version in the retained history |
| Replication.DeltaSyncExact | personal-server/pdpp/grant-scoped-records-repository.js:514-573 | from the granted view at `since`, applying a whole session gives the granted view at the horizon |
| Replication.AnswerStable | personal-server/pdpp/grant-scoped-records-repository.js:805-852 | a session's answer does not depend on anything written after it was opened |
| Replication.SessionIsolated | personal-server/pdpp/grant-scoped-records-repository.js:514-573 | with a full log, for any page sizes and any writes between pages, the pages are the one answer at session start, nothing lost or repeated, and the session ends; PrunedPages.PrunedPagesApplied says what they are under a history limit |
| Replication.ReplicaIsView | personal-server/pdpp/grant-scoped-records-repository.js:514-573 | a client that bootstraps and keeps following changes_since holds after every session the granted view of the history it was opened on; PrunedPages.FollowedExact says what it holds under a history limit |
| Paging.PagesPartition | personal-server/pdpp/grant-scoped-records-repository.js:514-573 | pages that take a prefix of what is owed and leave a cursor owing the rest add up to the whole |
| PrunedSessions.RetainedVersions | personal-server/pdpp/grant-scoped-records-repository.js:753-765 | a limit keeps exactly the last min(counter, limit) versions, in order |
| PrunedSessions.ExpiryExact | personal-server/pdpp/grant-scoped-records-repository.js:767-803 | a changes_since cursor is refused if and only if some change after it has been pruned |
| PrunedSessions.PrunedAnswer | personal-server/pdpp/grant-scoped-records-repository.js:836-894 | any page, first or later, whatever has been pruned: a changed key that is live at the horizon is owed if and only if its row's version lies above both the pruned part and the page cursor; one that left the view also needs its earlier row; what is sent carries the value at the horizon |
| PrunedSessions.PrunedSyncExactIff | personal-server/pdpp/grant-scoped-records-repository.js:836-894 | one unpaged answer, whatever has been pruned, is exact if and only if no change is missed |
| PrunedSessions.PrunedBootstrap | personal-server/pdpp/grant-scoped-records-repository.js:805-834 | any bootstrap page, first or later: exactly the granted live records at the horizon still to come whose row is still logged or still current |
| PrunedSessions.FreshBootstrapExact | personal-server/pdpp/grant-scoped-records-repository.js:805-834 | with nothing written since it was opened a bootstrap is exact under any pruning |
| PrunedSessions.TombstoneLostExample | personal-server/pdpp/grant-scoped-records-repository.js:881-894 | one record, deleted, with room for one change: the accepted cursor never learns of the deletion |
| PrunedSessions.BootstrapLostExample | personal-server/pdpp/grant-scoped-records-repository.js:805-834 | two records, one written again before the second page: the bootstrap does not send it |
| PrunedPages.PrunedPagesApplied | personal-server/pdpp/grant-scoped-records-repository.js:514-573 | a whole paged session under any history limit, pruned further between pages, applied by any client: a key has the value at the horizon if the page that owes it sends it, and else what the client had |
| PrunedPages.UnsentIffMissed | personal-server/pdpp/grant-scoped-records-repository.js:836-894 | a change is not sent exactly when no page that owes it was read, or the one that was had lost its row, or, for a key that left the view, its earlier row |
| PrunedPages.FollowedExact | personal-server/pdpp/grant-scoped-records-repository.js:514-573 | a client, with anything at all at first, that follows changes_since session after session under any limit holds for every key the value of the last session that sent it, and else what it had: a missed change stays missed until the key is sent again |
| PrunedPages.PrunedPagesExact | personal-server/pdpp/grant-scoped-records-repository.js:514-573 | for a client that held the view: key by key it holds the value at the horizon unless the page that owes the change can no longer send it |
| PrunedPages.PrunedPagesExactIff | personal-server/pdpp/grant-scoped-records-repository.js:514-573 | so paged sync is exact if and only if every change is sent by the page that owes it |
| PrunedPages.LiveMissedIff | personal-server/pdpp/grant-scoped-records-repository.js:836-852 | a changed live key is not sent if and only if its row is gone from what the page that owes it is served from |
| PrunedPages.LiveArrivesInTime | personal-server/pdpp/grant-scoped-records-repository.js:836-852 | as long as no page is read after pruning has passed the since version, every live key arrives |
| LostChange.LostBetweenPages | personal-server/pdpp/grant-scoped-records-repository.js:531-533 | a reader that does everything right and is never refused misses a live changed record, because a page cursor is accepted after its rows are pruned |
| ChangesClient.Synchronize | personal-server/pdpp/grant-scoped-records-repository.js:514-573 | any client, a whole session, with or without a history limit, whatever others write or import between the pages: refused exactly when its cursor has expired; else it ends with the version to ask from next, every page is the one served for the cursor before it from the store as it then was, the first for the session opened on the store as found, and the client holds each key as sent or as it had it; without a limit, from the view at `since`, exactly the view at the opening |
| FieldSelection.ResolveReadContext | personal-server/pdpp/operations.js:91-105 | a request is accepted exactly when its stream is declared and granted, the grant is a valid allowlist, every named field is readable and every filter names a readable scalar; else the first failing check is named |
| FieldSelection.ValidateFilters | personal-server/pdpp/operations.js:159-177 | the loop refuses at the first filter that does not exist, is no scalar or is not granted, with that filter's own error |
| FieldSelection.ResolveRequestedFields | personal-server/pdpp/operations.js:123-157 | the loop refuses at the first unreadable field with that field's own error, and otherwise selects required plus named fields, else the grant's, else all |
| FieldSelection.NamedMeaning | personal-server/pdpp/operations.js:123-136 | what a query names: its fields or a view's, not both, and the view must exist |
| FieldSelection.SelectedMeaning | personal-server/pdpp/operations.js:149-157 | what is selected: required and named fields, else the granted ones, else all, each once |
| FieldSelection.RefusalMeaning | personal-server/pdpp/operations.js:138-177 | why a field or a filter is refused |
| FieldSelection.StreamFound | personal-server/pdpp/operations.js:91-95 | the first stream declared under a name counts |
| FieldSelection.GrantFound | personal-server/pdpp/operations.js:96-99 | the first grant for a name counts |
| FieldSelection.ViewFound | personal-server/pdpp/operations.js:129-134 | the first view with an id counts |
| FieldSelection.SelectedReadable | personal-server/pdpp/operations.js:107-157 | the selected fields exist, lie inside the grant and include everything required |
| FieldSelection.AcceptedFieldsRefusedIff | personal-server/pdpp/operations.js:91-157 | the repository refuses the fields of an accepted request if and only if an empty name is among them or in the grant |
| FieldSelection.AcceptedFieldsNeverRefused | personal-server/pdpp/operations.js:91-157 | with no property named "" it never does |
| FieldSelection.EmptyNameRefused | personal-server/pdpp/grant-scoped-records-repository.js:1129-1140 | a schema with such a property: the request is accepted above and refused below |
| FilterLayers.AcceptedFilterRefusedIff | personal-server/pdpp/operations.js:159-172 | the repository refuses an accepted filter if and only if it names a field that was not selected and some visible row satisfies every entry before it |
| FilterLayers.SelectedFilterNeverRefused | personal-server/pdpp/operations.js:159-172 | filters on selected fields are never refused |
| FilterLayers.UnselectedFilterRefused | personal-server/pdpp/grant-scoped-records-repository.js:1197-1202 | such a request: with one visible row it fails, with none it is answered |
| FieldSelection.ProjectRecord | personal-server/pdpp/operations.js:179-186 | the loop keeps exactly the stored values of the selected fields |
| FieldSelection.BothLayersExact | personal-server/pdpp/operations.js:49-89 | after both projections every path returns exactly the stored values of the selected fields, with everything required of a valid record |
| FieldSelection.ProjectedSyncExact | personal-server/pdpp/operations.js:49-68 | a client of the projected change list replicates the projected view |
| RecentCorrelations.GroupMeaning | reference-implementation/lib/postgres-spine.ts:1384-1437 | the group of an id spans its events: no event is earlier than first_at or later than last_at, both are taken, and event_count counts them |
| RecentCorrelations.RecentScan.Scan | reference-implementation/lib/postgres-spine.ts:1041-1095 | the recursive scan ends; when it settles, the first limit + 1 ids seen are the first of all ids, ties at the boundary included; it settles exactly when some chunk end passes the test, or the feed ends, before one at or past the fallback size fails it |
| RecentCorrelations.SeenIsLast | reference-implementation/lib/postgres-spine.ts:1067-1071 | the timestamp kept for an id seen is the one of its last event in the whole log |
| RecentCorrelations.EarlyStopSettles | reference-implementation/lib/postgres-spine.ts:1073-1080 | once the last row is strictly older than the boundary id, no unseen id can belong to the first limit + 1 |
| RecentCorrelations.GroupsRanked | reference-implementation/lib/postgres-spine.ts:1097-1132 | the ordered groups are the aggregates of the ids ranked by last event |
| RecentCorrelations.FeedMeaning | reference-implementation/lib/postgres-spine.ts:1041-1095 | the rows scanned: every event with an id, later first, of one instant the higher number first |
| RecentCorrelations.SlowQueryIsFirstPage | reference-implementation/lib/postgres-spine.ts:1384-1437 | the first page on the events: rows spanning the events of their id, by last time and then id by code unit; an id is left out only by a full page all of whose rows rank before each of its events |
| RecentCorrelations.ListRecentCorrelationAggregates | reference-implementation/lib/postgres-spine.ts:1097-1132 | for every log, limit, chunk size and fallback size: the first page over the events with a non-empty id, which is the slow query's, or a fallback, exactly when no chunk end up to the first at or past the fallback size passes the test |
| RecentCorrelations.FailsIff | reference-implementation/lib/postgres-spine.ts:1041-1095 | chunk by chunk the scan fails exactly when a first chunk end reaches the fallback size with no chunk end up to it passing the test |
| RecentCorrelations.LoadCorrelationAggregates | reference-implementation/lib/postgres-spine.ts:1439-1453 | with the code's constants: that page, or, exactly where the scan gives up, the first page over all events with an id |
| RecentCorrelations.EmptyIdIff | reference-implementation/lib/postgres-spine.ts:1067-1071 | the two agree if and only if the log has no empty id or more than `limit` ids have a later last event than it |
| RecentCorrelations.EmptyIdExample | reference-implementation/lib/postgres-spine.ts:1067-1071 | a log of one event with the empty id: the query has a row for it, the scan none |
| EventWindows.EarlierMeaning | reference-implementation/lib/postgres-spine.ts:832-842 | the order of events: numbered rows first, then the number, then the event id by code unit |
| EventWindows.LaterMeaning | reference-implementation/lib/postgres-spine.ts:861-873 | the descending order of the queries: numbered rows still first, then the larger number and id |
| EventWindows.OrdersAreTotal | reference-implementation/lib/postgres-spine.ts:836-873 | the comparator and the descending SQL order are strict total orders on distinct events, missing numbers included |
| EventWindows.MergeEventRows | reference-implementation/lib/postgres-spine.ts:844-859 | merging loses no event id, repeats none, and returns event order whatever the input's order |
| EventWindows.MergeRunEventWindows | reference-implementation/lib/postgres-spine.ts:892-911 | every run gets exactly the rows of its own that the windows hold, in event order |
| EventWindows.GroupEventRowsByCorrelationId | reference-implementation/lib/postgres-spine.ts:875-890 | an id has a list exactly when it is not empty and has a row, and the list is its rows as they come |
| EventWindows.FetchRowsForSummaries | reference-implementation/lib/postgres-spine.ts:926-987 | for every run asked for, its first 5000, last 200 and last 10 terminal events, in event order; of a grant or a trace its first 5000, in event order, with a list exactly for the non-empty ids that have an event |
| EventWindows.SummarizedMeaning | reference-implementation/lib/postgres-spine.ts:926-987 | the windows row by row: fewer than 5000 before it, fewer than 200 after it, or a terminal event with fewer than ten terminal ones after it |
| EventWindows.IdInMeaning | reference-implementation/lib/postgres-spine.ts:285-289 | each column holds the correlation id it is named for |
| EventWindows.WindowsCoverLog | reference-implementation/lib/postgres-spine.ts:926-987 | that is the full log up to 5000 events, or up to 5200 that all carry a number |
| EventWindows.WindowsCoverLogIff | reference-implementation/lib/postgres-spine.ts:926-987 | for any length, exactly when the terminal window fills the gap between head and tail |
| EventWindows.LatestRunTerminalStatus | reference-implementation/lib/postgres-spine.ts:708-716 | the backward loop finds the status of the last of the four kinds of terminal event that has one other than unknown |
| EventWindows.PickedMeaning | reference-implementation/lib/postgres-spine.ts:705-716 | what each list of types picks: the last row of those types with a usable status |
| EventWindows.MergedTerminalIff | reference-implementation/lib/postgres-spine.ts:708-716 | the merged rows give the full log's terminal event exactly when the windows hold it |
| EventWindows.MergedStatusExact | reference-implementation/lib/postgres-spine.ts:926-987 | for a log of any length whose last ten terminal events include a usable one, the terminal status is the full log's |
| EventWindows.ListsDisagreeIff | reference-implementation/lib/postgres-spine.ts:605-607 | the terminal event picked by this file's four types differs from the one picked by the five of lib/spine.ts exactly when the latter is a browser-surface failure |
| EventWindows.ListsDisagreeExample | reference-implementation/lib/postgres-spine.ts:605-607 | one browser-surface failure with a status: four types pick none, five pick it |
| BootReconciliation.ControllerDatabase.LoadOrCreateDurableControllerId | reference-implementation/lib/controller-boot.ts:96-151 | the identity is the first one written: what was there, else what a rival writes before either of the two statements, else the seed; a later rival changes nothing |
| BootLog.NextSeqIn | reference-implementation/lib/controller-boot.ts:162-192 | the next number lies one above the highest earlier boot of this controller, or is 1 |
| BootOutcomes.OrphanIff | reference-implementation/lib/controller-boot.ts:384-408 | a start is selected if and only if it is this controller's, of another boot, neither abandoned nor its run ended by any of the five event types |
| BootOutcomes.AwaitingIff | reference-implementation/lib/controller-boot.ts:371-383 | the owner is awaited exactly when an interaction was asked for and no closing event has its id |
| BootOutcomes.AddedExact | reference-implementation/lib/controller-boot.ts:506-626 | whatever a pass adds is a boot event or the abandonment, with its run, cause, status and reason, of a start that was left open |
| BootOutcomes.NotOpenNotAbandoned | reference-implementation/lib/controller-boot.ts:355-420 | a start whose run had ended in any of the five ways, or that is not this controller's to settle, is not abandoned |
| BootOutcomes.OpenAbandoned | reference-implementation/lib/controller-boot.ts:355-420 | a finished pass abandons every start that was left open |
| BootOutcomes.HalvesSettle | reference-implementation/lib/controller-boot.ts:666-836 | what a finished pass leaves in every row: untouched unless running, else the status, time and reason of its run's earliest end, or of the abandonment of its own start |
| BootOutcomes.CountsExact | reference-implementation/lib/controller-boot.ts:248-265 | what the counts count, on events and rows |
| BootReconciliation.ControllerDatabase.EmitControllerBooted | reference-implementation/lib/controller-boot.ts:202-231 | the boot event is appended and stamped above every earlier boot of the controller |
| BootReconciliation.ControllerDatabase.EmitRunAbandoned | reference-implementation/lib/controller-boot.ts:562-626 | with two statements left the event and its projection onto exactly the running rows of its run and connection; with one the event alone; with none nothing; never a second event for the same start |
| BootReconciliation.ControllerDatabase.RepairTerminalRunHistoryDrift | reference-implementation/lib/controller-boot.ts:768-836 | as many drifted runs repaired as statements spent, finished as soon as there are as many statements as rows: then every drifted row has its run's earliest terminal event and no other row changed; it reports how many |
| BootReconciliation.ControllerDatabase.ReconcileSqlite | reference-implementation/lib/controller-boot.ts:422-504 | it stops only when its statements run out and finishes whenever there are enough; stopped, only orphans were abandoned, rows only adopted what ended their run, and as long as orphans are left every second statement added an event; finished, every row is settled as its events say, nothing is left to do and its counts are the orphans found and the drifted rows no orphan claims |
| BootReconciliation.ControllerDatabase.ReconcilePostgres | reference-implementation/lib/controller-boot.ts:355-420 | the same in one transaction: with too few statements nothing at all, with enough the whole pass, every row settled, with the orphans it found and the rows it repaired as its counts |
| BootReconciliation.ControllerDatabase.Boot | reference-implementation/lib/controller-boot.ts:202-231 | identity, boot event and pass: with enough statements the boot finishes; with any at all its own event comes first, numbered above earlier boots, and only abandonments follow |
| BootReconciliation.ControllerDatabase.RebootUntilReconciled | reference-implementation/lib/controller-boot.ts:344-349 | boots cut short at any statement, each starting from exactly what the one before it left and doing what a boot does there, none but the last finished: the first with statements enough for what it finds finishes, and the whole leaves what a single boot leaves |
| BootReconciliation.ControllerDatabase.RunLifetimes | reference-implementation/lib/controller-boot.ts:344-349 | boot after boot, each from exactly the tables that the boot before it and the activity after that left, doing what a boot does to them; at the end no start a finished boot was to settle is left unsettled, every start has at most one abandonment, and every new abandonment is of an orphan some boot found or comes from the activity |
| BootConvergence.NothingOrphaned | reference-implementation/lib/controller-boot.ts:422-504 | complete: every owned start of another epoch has a terminal event for its run or an abandonment of its own |
| BootConvergence.OnlyOwnOrphansAbandoned | reference-implementation/lib/controller-boot.ts:355-420 | confined: only owned starts of other epochs whose run had not ended are abandoned, each once; terminal rows, identities and records_emitted never change |
| BootConvergence.SecondPassSilent | reference-implementation/lib/controller-boot.ts:355-420 | idempotent: a second pass adds no event and changes no settled row |
| BootConvergence.SecondBootSilent | reference-implementation/lib/controller-boot.ts:344-349 | a second boot under its own epoch, after a finished one, adds its boot event and nothing else and changes no settled row |
| BootConvergence.PassesCompose | reference-implementation/lib/controller-boot.ts:422-504 | two passes, the first cut short anywhere, do together what one may do |
| BootConvergence.FinishCompletes | reference-implementation/lib/controller-boot.ts:422-504 | a finished pass also completes everything an earlier interrupted one had to do |
| BootConvergence.OutcomeIsRepair | reference-implementation/lib/controller-boot.ts:666-836 | with unique run ids the final history is a function of the history before and the final log |
| BootConvergence.SameOutcome | reference-implementation/lib/controller-boot.ts:422-504 | convergence: however interrupted, the same starts are abandoned and every row gets the same status and reason, and the same time for the same ending event |
| BootConvergence.StuckIff | reference-implementation/lib/controller-boot.ts:742-756 | a row is running against a terminal log after a finished pass if and only if it was running before and the earliest event that had ended its run says "running" |
| BootConvergence.NoRowLeftRunningIff | reference-implementation/lib/controller-boot.ts:742-756 | so no row is left so if and only if the log and history before had no such row |
| BootConvergence.StuckExample | reference-implementation/lib/controller-boot.ts:742-756 | such an input for both event types that pass their status on |
| ConnectorInstall.OneCandidate | scripts/resolve-connectors.js:263-270 | in a safe state recovery never meets two candidates, and the one it meets holds the latest published tree |
| ConnectorInstall.PublishedNotRestored | scripts/resolve-connectors.js:251-256 | creating, damaging or deleting a transaction that is not interrupted keeps the state safe, so a published transaction's previous tree is never restored |
| ConnectorInstall.TransactionMeaning | scripts/resolve-connectors.js:237-262 | when a transaction is left over, interrupted or a reason to refuse, by its owner file, its trees and the probe |
| ConnectorInstall.ConnectorDirectory.ScanTransactions | scripts/resolve-connectors.js:237-262 | the loop collects exactly the interrupted and the leftover transactions, or refuses exactly when an owner cannot be asked about or still runs without a root |
| ConnectorInstall.ConnectorDirectory.RemoveTransaction | scripts/resolve-connectors.js:352-364 | a recursive delete that stops half-way leaves a safe state |
| ConnectorInstall.ConnectorDirectory.RecoverInterruptedInstall | scripts/resolve-connectors.js:233-275 | refused exactly while an owner cannot be asked about, or runs without a root; otherwise it fails or dies only where one of its steps does, at most two and one per transaction found, and finished the root holds what was published last and the transactions are those found without the restored and leftover ones; the state stays safe at every step |
| ConnectorInstall.ConnectorDirectory.Publish | scripts/resolve-connectors.js:330-350 | which of the two renames and the rollback happen decides outcome, moved and published; whatever fails or dies, one tree, root or previous, is the latest |
| ConnectorInstall.ConnectorDirectory.CleanUp | scripts/resolve-connectors.js:352-364 | the transaction is gone if and only if its delete happens; a failed delete is reported only if nothing was published |
| ConnectorInstall.ConnectorDirectory.InstallConnectorsAtomically | scripts/resolve-connectors.js:279-365 | refused exactly as a recovery or for an invalid lock; else it succeeds unless one of its steps, at most seven more than a recovery, fails or is the last; success means the checked bundle is in place; a failed build or publication leaves the previous one, a failed rollback keeps it for recovery; its own transaction is gone unless its delete or the rollback failed or the process died; the state stays safe at every step |
| ConnectorInstall.ConnectorDirectory.RunAttempts | scripts/resolve-connectors.js:279-365 | any sequence of installs, crashes, failed cleanups and recoveries, each from exactly the state the one before left: an attempt succeeds unless in what it finds a step it takes fails or is the last, an owner of a transaction of this root forbids it, or the lock is invalid; without a failed step it leaves no transaction of its own and none that recovery was to delete; the latest tree is that of the last attempt to pass the second rename, and after a success the root holds it |

## Left out

- SQL text, drivers and JSON columns: tables are maps and sequences, each query is its meaning on them.
- Cursor encoding, hashing, UUIDs, clocks and hostnames: opaque values, chosen freely where the source draws them; cursors are those the store issued, with the same grant throughout a session.
- Date.parse, the ISO pattern and locale comparison: parameters of the stream metadata, or an order on strings by code unit; finite and non-finite numbers are not told apart.
- JSON.stringify: its text of a canonical value stands for that value; the order it gives to integer-like keys is a function of the key set and plays no part.
- summarizeCurrent, listStreams, the list importSnapshot returns, the onMutationStep test hook and malformed grant or request shapes: single-branch checks or plain projections.
- HTTP routing, token introspection, tunnels, process supervision, the export-directory cache, build, release and deploy scripts, the UI.
- Correlation queries with filters: they go to the grouped query directly. Sequence numbers are unique, as the table's index demands.
- Replication.SessionIsolated: needs a log that is never pruned, as the server has it; PrunedPages.PrunedPagesApplied states what holds with a history limit.
- Replication.ReplicaIsView: the same; PrunedPages.FollowedExact states what holds with a history limit.
- Transactions of the records store: SQLite's own rollback of a mutation that fails half-way is taken for granted; only the import's rollback is modelled.
- What summaries fold out of their rows beside the terminal status; the lease-based fallback status.
- CurrentPages.PagingPartitionsView: needs different cursor strings to denote different instants, because the code's comparator is no order otherwise.
- CurrentClient.ListAll: the same, and a store that stands still meanwhile.
- RecordsRepository.GrantScopedRecordsRepository.ListCurrent: where instants tie the order of the rows is not stated, because the sort has no order to follow.
- EventWindows.MergedStatusExact: needs sequence numbers on every event of the run, as the Postgres column guarantees; MergedTerminalIff covers rows without.
- BootReconciliation.ControllerDatabase.Boot: a process that dies before its identity is settled counts as not having booted.
- BootConvergence.SameOutcome: needs unique run ids, one terminal event per run and epochs under which no run was started, because the repair joins on the run id alone and takes the earliest event by timestamp.
- BootConvergence.NoRowLeftRunningIff: needs events that end a run at the same instant to agree on whether they say "running", because the repair may take either.
- facts_json, trace, scenario and actor columns of events, and the environment override of the controller id.
- Isolation between connections that share a run id: the repair does not provide it.
- ConnectorInstall: concurrent installers, reused process ids, torn owner.json writes, a missing parent directory, and the download and verification of a bundle, which is one step that succeeds or fails.
