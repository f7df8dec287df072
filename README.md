# Distributed cache sync and server registration, modelled in Dafny

This project models the part of Umbraco that keeps the caches of a
load-balanced deployment in step, together with the list view's paging rules:

- **DatabaseServerMessenger** (`messenger.dfy`, `instructions.dfy`). Each node
  appends its cache instructions as one JSON array row to the shared
  `umbracoCacheInstruction` table. The identity column starts at 1. On its own
  schedule, each node replays the rows above its last-synced offset against its
  local cache refreshers, in id order. It then advances the offset to the
  largest fetched id and prunes rows older than the retention window. The model
  keeps:
  - the 5-second throttle and the single-flight `syncing` flag;
  - nested instruction arrays;
  - the six refresh methods;
  - which exceptions a sync catches and which escape.

  A JsonException ends only its own row. That covers a row whose text does not
  deserialize to a JSON array (text that is not JSON, or JSON of another type),
  which is skipped, and an element that fails to convert to an instruction. Any
  other exception escapes the sync and leaves `syncing` set. Examples are an
  unknown refresher, a non-JSON refresher, an unreadable id list, an element
  that is neither an object nor an array, or a row holding the JSON literal
  `null`, which deserializes to a null array that cannot be iterated. Because the flag stays set, every later sync
  is skipped as "already syncing": this follows from `Sync`'s contract. The
  offset stays where it was and the table is not pruned.
- **ServerRegistrationService** (`registration.dfy`). This is the heartbeat
  table of nodes. Computer names are compared without regard to case. It
  provides an upsert on heartbeat followed by the repository's stale sweep,
  explicit deactivation, and the list of active servers.
- **DatabaseServerRegistrar** (`registrar.dfy`). This is the read-only view of
  the active servers, with its options: a 30-second heartbeat throttle and a
  one-hour stale timeout.
- **ServerRegistrationEventHandler** (`heartbeat.dfy`). It holds the routing
  outcome filter that decides whether a request may trigger a heartbeat. It also
  holds the heartbeat throttle on the time of the last attempt and the swallowing
  of heartbeat failures.
- **listview.controller.js** (`listview.dfy`). This covers:
  - the pagination strip, a window of ten pages with "First"/"Last" markers and ellipses;
  - next, prev, goToPage, sort and search;
  - clamping the page number after a load;
  - the selection predicates and the property lookup helpers.

Time is measured in DateTime ticks (100 ns), and the current time is always a
parameter. Mutable objects are classes with `modifies` clauses: the instruction
table, the messenger, the registration store and service, the event handler and
the list view scope. Their methods are proved against specification functions
on sequences. These include `Fetch`, `Prune`, `ReplayBatch`, `Replay`,
`Upsert`, `Sweep`, `Deactivate`, `ActiveOf` and `Pagination`. The properties
the sources promise are proved as lemmas about those functions.

The code and its comments disagree in two places, and the model follows the code:

- `DatabaseServerRegistrarOptions` is commented "1 day" and "60 seconds". Its
  values are one hour and 30 seconds.
- The event handler's remarks speak of "a minute" between heartbeats. The
  throttle used is the registrar's `ThrottleSeconds`.

## Model

| member | source | states |
|---|---|---|
| Messenger.InstructionLog.constructor | src/Umbraco.Core/Persistence/Migrations/Upgrades/TargetVersionSevenThreeZero/CreateCacheInstructionTable.cs:15-18 | the table starts empty and its identity column hands out 1 first |
| Messenger.InstructionLog.Insert | src/Umbraco.Core/Sync/DatabaseServerMessenger.cs:83-88 | a row is appended with the next identity id; ids stay strictly ascending and positive |
| Messenger.InstructionLog.FetchAfter | src/Umbraco.Core/Sync/DatabaseServerMessenger.cs:148-153 | the fetch is exactly the rows with id above the offset, in strictly ascending id order |
| Messenger.InstructionLog.DeleteOlderThan | src/Umbraco.Core/Sync/DatabaseServerMessenger.cs:174 | the table afterwards is exactly the rows stamped at or after now minus the retention window, still in id order |
| Messenger.InstructionLog.MaxIdScalar | src/Umbraco.Core/Sync/DatabaseServerMessenger.cs:115-116 | MAX(id) is 0 on an empty table, otherwise the last (largest) id, which is positive |
| Messenger.MaxId | src/Umbraco.Core/Sync/DatabaseServerMessenger.cs:170 | the result is one of the batch's ids and no id in the batch exceeds it |
| Messenger.DatabaseServerMessenger.constructor | src/Umbraco.Core/Sync/DatabaseServerMessenger.cs:26-43 | offset -1, not syncing, not initialized, throttle clock at construction time |
| Messenger.DatabaseServerMessenger.ShouldMakeDistributedCall | src/Umbraco.Core/Sync/DatabaseServerMessenger.cs:52-62 | a distributed call is made iff start-up has initialized the messenger and distributed calls are enabled |
| Messenger.DatabaseServerMessenger.PerformDistributedCall | src/Umbraco.Core/Sync/DatabaseServerMessenger.cs:64-89 | exactly one row holding the serialized instructions, stamped now, is appended; nothing is applied locally |
| Messenger.DatabaseServerMessenger.FirstSync | src/Umbraco.Core/Sync/DatabaseServerMessenger.cs:97-121 | every rebuild callback runs once in order; the offset becomes MAX(id) only when that is positive |
| Messenger.DatabaseServerMessenger.OnApplicationStarted | src/Umbraco.Core/Sync/DatabaseServerMessenger.cs:316-335 | with no configured, reachable database nothing changes; otherwise a persisted offset is adopted, a first sync runs only when the offset is still -1, and the messenger becomes initialized |
| Messenger.DatabaseServerMessenger.Sync | src/Umbraco.Core/Sync/DatabaseServerMessenger.cs:123-183 | within the throttle or while syncing nothing changes; otherwise the new rows are replayed in id order and the refresher calls are appended; on success the offset becomes the largest fetched id (or stays when nothing was fetched), old rows are pruned and the flag is cleared; on an escaping exception the flag stays set, the offset and the table are untouched |
| Messenger.DatabaseServerMessenger.ReplayNewRows | src/Umbraco.Core/Sync/DatabaseServerMessenger.cs:146-178 | with the flag set, the new rows are replayed; on success the offset becomes the largest fetched id (or stays), old rows are pruned and the flag is cleared; on an escaping exception the flag, the offset and the table are untouched |
| Messenger.DatabaseServerMessenger.ReplayRow | src/Umbraco.Core/Sync/DatabaseServerMessenger.cs:159-167 | one row makes exactly the calls of its replay; a JsonException is caught there and only another exception is returned |
| Messenger.DatabaseServerMessenger.ReplayRows | src/Umbraco.Core/Sync/DatabaseServerMessenger.cs:155-168 | the loop over fetched rows makes exactly the calls of the batch replay and ends with its escaping exception, if any |
| Messenger.DatabaseServerMessenger.UpdateRefreshers | src/Umbraco.Core/Sync/DatabaseServerMessenger.cs:185-228 | an array is processed element by element, nested arrays recursively, making exactly the calls of the replay of its flattening up to the first exception |
| Messenger.DatabaseServerMessenger.UpdateRefresher | src/Umbraco.Core/Sync/DatabaseServerMessenger.cs:189-227 | one element makes exactly the calls of its replay: an object is converted and dispatched, a nested array is iterated, anything else throws |
| Messenger.DatabaseServerMessenger.Dispatch | src/Umbraco.Core/Sync/DatabaseServerMessenger.cs:198-218 | the switch makes exactly the calls the instruction asks for, or none when it throws; an undefined refresh type does nothing |
| Messenger.DatabaseServerMessenger.RefreshAll | src/Umbraco.Core/Sync/DatabaseServerMessenger.cs:266-270 | one RefreshAll call on a registered refresher; an unknown refresher throws before any call |
| Messenger.DatabaseServerMessenger.RefreshByGuid | src/Umbraco.Core/Sync/DatabaseServerMessenger.cs:272-276 | one Refresh(Guid) call on a registered refresher; an unknown refresher throws |
| Messenger.DatabaseServerMessenger.RefreshById | src/Umbraco.Core/Sync/DatabaseServerMessenger.cs:278-282 | one Refresh(int) call on a registered refresher; an unknown refresher throws |
| Messenger.DatabaseServerMessenger.RefreshByIds | src/Umbraco.Core/Sync/DatabaseServerMessenger.cs:284-294 | the id list is read first (an unreadable list throws), then the refresher is looked up, then one Refresh(int) per id in listed order |
| Messenger.DatabaseServerMessenger.RefreshByJson | src/Umbraco.Core/Sync/DatabaseServerMessenger.cs:296-304 | a refresher that is not JSON-capable throws InvalidOperationException before any call; otherwise one Refresh(payload) |
| Messenger.DatabaseServerMessenger.RemoveById | src/Umbraco.Core/Sync/DatabaseServerMessenger.cs:306-310 | one Remove(int) call on a registered refresher; an unknown refresher throws |
| Messenger.ReplayBatchExtend | src/Umbraco.Core/Sync/DatabaseServerMessenger.cs:157-168 | processing one more row is sequencing that row's replay after the replay of the rows before it |
| Messenger.ReplayBatchPrefixFault | src/Umbraco.Core/Sync/DatabaseServerMessenger.cs:157-168 | once a prefix of the batch escapes, the later rows are never reached |
| Messenger.ReplayPrefixFault | src/Umbraco.Core/Sync/DatabaseServerMessenger.cs:187-227 | once a prefix of an array throws, the rest of the array is never reached |
| Common.FilterMembers | src/Umbraco.Core/Sync/DatabaseServerMessenger.cs:148-151 | a filtered list holds exactly the elements that satisfy the condition |
| Messenger.FilterKeepsAscending | src/Umbraco.Core/Sync/DatabaseServerMessenger.cs:148-151 | selecting rows from a table in id order keeps them in id order |
| Messenger.FetchIsOrderedSuffix | src/Umbraco.Core/Sync/DatabaseServerMessenger.cs:148-153 | the fetch is ascending, holds only rows above the offset, and misses none of them |
| Messenger.OffsetAdvances | src/Umbraco.Core/Sync/DatabaseServerMessenger.cs:155-171 | after a non-empty fetch the new offset is the last fetched id and is strictly greater than the old offset |
| Messenger.PruneExact | src/Umbraco.Core/Sync/DatabaseServerMessenger.cs:174 | a row survives pruning iff it is stamped at or after now minus 100 days, whatever any node's offset |
| Messenger.MalformedRowSkipped | src/Umbraco.Core/Sync/DatabaseServerMessenger.cs:159-167 | a row whose deserialization to an array throws a JsonException replays exactly as if it were absent |
| Messenger.NullDocumentEscapes | src/Umbraco.Core/Sync/DatabaseServerMessenger.cs:161-162 | a row holding JSON null stops the batch with an escaping exception, keeping the calls of the rows before it |
| Messenger.JsonExceptionEndsOnlyItsRow | src/Umbraco.Core/Sync/DatabaseServerMessenger.cs:159-167 | a JsonException keeps the calls its row made before the throw, and the batch continues with the next row |
| Messenger.WrittenRowReplays | src/Umbraco.Core/Sync/DatabaseServerMessenger.cs:82-88 | replaying a written row dispatches each written instruction once, in order, when every refresher is registered with the needed capability |
| Messenger.CaughtUpNodeReplaysNewRow | src/Umbraco.Core/Sync/DatabaseServerMessenger.cs:148-170 | a node whose offset covers the table fetches exactly the row another node writes next, and replays all its instructions |
| Instructions.RefreshEach | src/Umbraco.Core/Sync/DatabaseServerMessenger.cs:290-293 | one Refresh(int) call per id, in listed order |
| Instructions.FlattenAppend | src/Umbraco.Core/Sync/DatabaseServerMessenger.cs:187-227 | flattening an array distributes over concatenation |
| Instructions.FlattenNestedExample | src/Umbraco.Core/Sync/DatabaseServerMessenger.cs:221-226 | the array [A, [B, C], D] is processed as A, B, C, D |
| Instructions.FlattenIdempotent | src/Umbraco.Core/Sync/DatabaseServerMessenger.cs:185-228 | flattening an already flat array changes nothing |
| Instructions.ReplayExtend | src/Umbraco.Core/Sync/DatabaseServerMessenger.cs:187-227 | processing one more element, recursing into a nested array, is sequencing it after the elements before it |
| Instructions.RunAllCharacterised | src/Umbraco.Core/Sync/DatabaseServerMessenger.cs:185-228 | every flattened element is dispatched exactly once, in order, up to the first that throws; with none every intended call is made, otherwise the calls before it stay made and its exception ends the run |
| Instructions.ReplayCharacterised | src/Umbraco.Core/Sync/DatabaseServerMessenger.cs:185-228 | the same characterisation for a nested instruction array |
| Instructions.DispatchSucceeds | src/Umbraco.Core/Sync/DatabaseServerMessenger.cs:198-218 | an instruction for a registered refresher of the right kind, with a readable id list, makes exactly its intended calls |
| Instructions.RefreshByIdsInOrder | src/Umbraco.Core/Sync/DatabaseServerMessenger.cs:284-294 | RefreshByIds calls Refresh once per id, in listed order |
| Instructions.RefreshByJsonNeedsJsonRefresher | src/Umbraco.Core/Sync/DatabaseServerMessenger.cs:296-304 | RefreshByJson throws iff its refresher is not JSON-capable |
| Registration.NullArgument | src/Umbraco.Core/Services/ServerRegistrationService.cs:28-34 | the service is constructed iff both arguments are present; a missing provider is reported first |
| Registration.RegistrationStore.SaveAndCommit | src/Umbraco.Core/Services/ServerRegistrationService.cs:64-65 | AddOrUpdate replaces the found row or appends a new one, and the unit of work commits once |
| Registration.RegistrationStore.DeactiveStaleServers | src/Umbraco.Core/Services/ServerRegistrationService.cs:66 | the repository sweep clears the active flag of exactly the rows its rule calls stale |
| Registration.ServerRegistrationService.EnsureActive | src/Umbraco.Core/Services/ServerRegistrationService.cs:42-68 | the table becomes the stale sweep of the heartbeat upsert, with one commit; a table with one row per name keeps that property |
| Registration.ServerRegistrationService.DeactiveServer | src/Umbraco.Core/Services/ServerRegistrationService.cs:74-89 | the first row for the name is deactivated and committed; with no such row nothing is written or committed; one row per name is kept |
| Registration.ServerRegistrationService.DeactiveStaleServers | src/Umbraco.Core/Services/ServerRegistrationService.cs:91-98 | the table becomes its stale sweep, without a commit; one row per name is kept |
| Registration.ServerRegistrationService.GetActiveServers | src/Umbraco.Core/Services/ServerRegistrationService.cs:104-112 | the result holds exactly the active rows, in table order |
| Registration.Upsert | src/Umbraco.Core/Services/ServerRegistrationService.cs:47-64 | after the upsert the table has an active row for the name with the address and time; a row is added only for a new name |
| Registration.Deactivate | src/Umbraco.Core/Services/ServerRegistrationService.cs:79-87 | length and names are kept, and the first matching row, if any, is inactive afterwards |
| Registration.Sweep | src/Umbraco.Core/Services/ServerRegistrationService.cs:66 | length and names are kept, and no inactive row becomes active |
| Registration.UpsertUpdatesFirstMatch | src/Umbraco.Core/Services/ServerRegistrationService.cs:47-56 | a heartbeat for a known name refreshes address, time and active flag of the first match in place and touches no other row |
| Registration.UpsertAddsRow | src/Umbraco.Core/Services/ServerRegistrationService.cs:57-63 | a heartbeat for an unknown name appends one active row with the address, name and time |
| Registration.UpsertKeepsNamesUnique | src/Umbraco.Core/Services/ServerRegistrationService.cs:47-64 | the upsert keeps at most one row per name, compared without regard to case |
| Registration.HeartbeatTwiceOneRow | src/Umbraco.Core/Services/ServerRegistrationService.cs:42-68 | two heartbeats, each an upsert followed by the stale sweep, under one name in any casing keep names unique and leave exactly one row for it, active with the later address and time |
| Registration.HeartbeatLeavesOneActiveRow | src/Umbraco.Core/Services/ServerRegistrationService.cs:42-68 | one heartbeat (upsert then stale sweep) keeps names unique and leaves exactly one row for the caller's name, active with its address and time |
| Registration.DeactivateExact | src/Umbraco.Core/Services/ServerRegistrationService.cs:79-87 | deactivation clears the active flag of the first matching row and changes nothing else; with no match the table is unchanged |
| Registration.DeactivateKeepsNamesUnique | src/Umbraco.Core/Services/ServerRegistrationService.cs:79-87 | deactivation keeps at most one row per name |
| Registration.SweepKeepsNamesUnique | src/Umbraco.Core/Services/ServerRegistrationService.cs:66 | the stale sweep keeps at most one row per name |
| Registration.SweepExact | src/Umbraco.Core/Services/ServerRegistrationService.cs:66 | the sweep changes only active flags, clearing exactly those of the rows the rule calls stale |
| Registration.ActiveOfExact | src/Umbraco.Core/Services/ServerRegistrationService.cs:109-110 | a row is listed iff it is active |
| Registration.HeartbeatRowSurvivesSweep | src/Umbraco.Core/Services/ServerRegistrationService.cs:42-68 | under the rule "last update before now minus the timeout", the caller's own row is active after its heartbeat, with its address and time |
| Registrar.NewRegistrar | src/Umbraco.Core/Sync/DatabaseServerRegistrar.cs:18-24 | a registrar is built iff both arguments are present, a missing service reported first; Options is the object passed in; construction reads no state |
| Registrar.Registrations | src/Umbraco.Core/Sync/DatabaseServerRegistrar.cs:26-29 | the registrations are exactly the service's active servers at the time of the read |
| Heartbeat.ShouldCheckForUpdate | src/Umbraco.Web/Strategies/ServerRegistrationEventHandler.cs:54-76 | an update check happens iff there is a request with a URL and the outcome is routable, or a non-document request for the back office |
| Heartbeat.ServerRegistrationEventHandler.constructor | src/Umbraco.Web/Strategies/ServerRegistrationEventHandler.cs:32 | the last heartbeat time starts at DateTime.MinValue |
| Heartbeat.ServerRegistrationEventHandler.UmbracoModuleRouteAttempt | src/Umbraco.Web/Strategies/ServerRegistrationEventHandler.cs:54-76 | a filtered-out request or one within the throttle changes nothing; otherwise the heartbeat time is set and the table receives the heartbeat, or the failure is logged with the table unchanged |
| Heartbeat.ServerRegistrationEventHandler.PerformUpdateCheck | src/Umbraco.Web/Strategies/ServerRegistrationEventHandler.cs:78-87 | a heartbeat is due once at least ThrottleSeconds have passed, and its time is recorded before the write so a failed write still uses up the window |
| Heartbeat.ServerRegistrationEventHandler.UpdateServerEntry | src/Umbraco.Web/Strategies/ServerRegistrationEventHandler.cs:89-107 | the heartbeat calls EnsureActive with the registrar's stale timeout; a failure is logged and not propagated |
| Heartbeat.ThrottleBoundaryInclusive | src/Umbraco.Web/Strategies/ServerRegistrationEventHandler.cs:81 | a heartbeat is due at exactly the throttle interval and not one tick before |
| Heartbeat.FirstRequestIsDue | src/Umbraco.Web/Strategies/ServerRegistrationEventHandler.cs:32 | from DateTime.MinValue the first eligible request is due |
| ListView.Pagination | src/Umbraco.Web.UI.Client/src/views/propertyeditors/listview/listview.controller.js:164-201 | the strip has totalPages entries (none when that is not positive) up to ten pages, otherwise ten numbered entries plus at most four markers |
| ListView.BuildPagination | src/Umbraco.Web.UI.Client/src/views/propertyeditors/listview/listview.controller.js:164-201 | the push/unshift loops build exactly the pagination strip for the total pages and current page |
| ListView.SmallPagination | src/Umbraco.Web.UI.Client/src/views/propertyeditors/listview/listview.controller.js:167-174 | with at most ten pages the strip is pages 1..totalPages in order and only the current page is active |
| ListView.WindowStart | src/Umbraco.Web.UI.Client/src/views/propertyeditors/listview/listview.controller.js:178-183 | the window start never exceeds totalPages - 10, and with more than ten pages it is at least 0 |
| ListView.LargePagination | src/Umbraco.Web.UI.Client/src/views/propertyeditors/listview/listview.controller.js:178-200 | with more than ten pages there are exactly ten numbered entries start+1..start+10, with "First", "..." in front iff start > 0 and "...", "Last" behind iff start < totalPages - 10 |
| ListView.OneActiveEntry | src/Umbraco.Web.UI.Client/src/views/propertyeditors/listview/listview.controller.js:164-201 | exactly one entry is active when the page number is between 1 and totalPages, none otherwise |
| ListView.PagesInRange | src/Umbraco.Web.UI.Client/src/views/propertyeditors/listview/listview.controller.js:164-201 | every page number in the strip is between 1 and totalPages |
| ListView.ToggledDirection | src/Umbraco.Web.UI.Client/src/views/propertyeditors/listview/listview.controller.js:118-123 | "desc" becomes "asc" and anything else becomes "desc" |
| ListView.ToggleTwice | src/Umbraco.Web.UI.Client/src/views/propertyeditors/listview/listview.controller.js:114-127 | sorting the same column twice restores an "asc" or "desc" direction |
| ListView.IsSortDirection | src/Umbraco.Web.UI.Client/src/views/propertyeditors/listview/listview.controller.js:94-96 | true iff the direction is the same and the column names are equal once upper-cased, character by character |
| ListView.IsSortDirectionIgnoresCase | src/Umbraco.Web.UI.Client/src/views/propertyeditors/listview/listview.controller.js:94-96 | the answer does not depend on the casing of either column name |
| ListView.EverySelected | src/Umbraco.Web.UI.Client/src/views/propertyeditors/listview/listview.controller.js:231-233 | true iff every item is selected |
| ListView.SomeSelected | src/Umbraco.Web.UI.Client/src/views/propertyeditors/listview/listview.controller.js:240-242 | true iff some item is selected |
| ListView.IsSelectedAll | src/Umbraco.Web.UI.Client/src/views/propertyeditors/listview/listview.controller.js:227-234 | true iff the items are an array and every item is selected (so true on an empty array) |
| ListView.IsAnythingSelected | src/Umbraco.Web.UI.Client/src/views/propertyeditors/listview/listview.controller.js:236-243 | true iff the items are an array and some item is selected |
| ListView.SelectedAllImpliesAnything | src/Umbraco.Web.UI.Client/src/views/propertyeditors/listview/listview.controller.js:227-243 | on a non-empty array, all selected implies something selected |
| ListView.GetCustomPropertyValue | src/Umbraco.Web.UI.Client/src/views/propertyeditors/listview/listview.controller.js:359-376 | the value of the first property with the alias, or '' when none has it |
| ListView.IsDate | src/Umbraco.Web.UI.Client/src/views/propertyeditors/listview/listview.controller.js:413-418 | only a string of 19 characters, with '-', ' ' and ':' at the separator positions, is a date |
| ListView.IsDateShape | src/Umbraco.Web.UI.Client/src/views/propertyeditors/listview/listview.controller.js:413-418 | a value is a date iff it is a string matching yyyy-MM-dd HH:mm:ss position by position |
| ListView.DateExamples | src/Umbraco.Web.UI.Client/src/views/propertyeditors/listview/listview.controller.js:413-418 | "2014-05-01 12:30:45" is a date; a "T" separator or missing seconds is not |
| ListView.GetLocalizedKey | src/Umbraco.Web.UI.Client/src/views/propertyeditors/listview/listview.controller.js:431-455 | the alias is its own key iff it is not one of the nine known aliases; the content type column reads "document type" only in a content list |
| ListView.InitialPage | src/Umbraco.Web.UI.Client/src/views/propertyeditors/listview/listview.controller.js:61 | the list opens on the route's page when it is positive, otherwise on page 1 |
| ListView.ListViewScope.constructor | src/Umbraco.Web.UI.Client/src/views/propertyeditors/listview/listview.controller.js:51-65 | empty strip and result set, the initial page, and the configured sort or "VersionDate" descending |
| ListView.ListViewScope.Next | src/Umbraco.Web.UI.Client/src/views/propertyeditors/listview/listview.controller.js:98-105 | one page on and a reload only while below the last page; otherwise nothing changes; a page in range stays in range |
| ListView.ListViewScope.Prev | src/Umbraco.Web.UI.Client/src/views/propertyeditors/listview/listview.controller.js:129-136 | one page back and a reload only while above page 1; otherwise nothing changes; a page in range stays in range |
| ListView.ListViewScope.GoToPage | src/Umbraco.Web.UI.Client/src/views/propertyeditors/listview/listview.controller.js:107-112 | the page becomes the zero-based index plus one, with a reload and no bound check |
| ListView.ListViewScope.Sort | src/Umbraco.Web.UI.Client/src/views/propertyeditors/listview/listview.controller.js:114-127 | nothing changes when not allowed; otherwise the field becomes the sort column, the direction toggles and a reload follows |
| ListView.ListViewScope.Search | src/Umbraco.Web.UI.Client/src/views/propertyeditors/listview/listview.controller.js:207-210 | back to page 1 with a reload |
| ListView.ListViewScope.SelectAll | src/Umbraco.Web.UI.Client/src/views/propertyeditors/listview/listview.controller.js:216-225 | every item takes the checkbox state and nothing else changes; afterwards all are selected when checked and none when unchecked |
| ListView.ListViewScope.OnResults | src/Umbraco.Web.UI.Client/src/views/propertyeditors/listview/listview.controller.js:143-201 | the result set is stored, a page number past the last page is clamped to it with another reload, and the strip is rebuilt for the clamped page |

## Left out

- File I/O of the last-synced offset (`ReadLastSynced`, `SaveLastSynced`). A read is an optional integer parameter of `OnApplicationStarted`: absent when the file is missing or does not parse. A save is the assignment of the offset.
- JSON text: parsing and serialization are not modelled. A stored row is either text that is not an array or the parsed array of objects, nested arrays and primitives. `DistributedMessage.ConvertToInstructions` is not part of this model, so `PerformDistributedCall` takes the instruction list.
- Concurrency: the lock, the volatile flag and the double-checked test are a single check of `syncing`. The heartbeat time is a static field shared by all handlers, modelled as a field of one handler.
- Messenger.DatabaseServerMessenger.Sync: the throttle compares ticks exactly, where the source subtracts floating-point `TotalSeconds`.
- The cache refresher resolver is a map from GUID to refresher. Looking up a GUID that is not registered is modelled as an exception that escapes the sync. The resolver's code is not part of this model.
- Registration.Sweep: the repository's `DeactiveStaleServers` is not part of this model. Its staleness rule is a parameter of the store. One lemma uses the rule "last update before now minus the timeout".
- Repository queries return rows in table order, and the first row matching a name is the one updated.
- The messenger constructor's null checks are not modelled, because Dafny references cannot be null. The service's and registrar's null checks are modelled.
- Messenger.InstructionLog.MaxIdScalar: `MAX(id)` on an empty table is taken as 0, which `ExecuteScalar<int>` gives for a NULL scalar.
- Messenger.InstructionLog.Insert: the 32-bit range of the identity column is not modelled; ids are unbounded integers.
- Messenger.DatabaseServerMessenger.Dispatch, RefreshAll, RefreshByGuid, RefreshById, RefreshByIds, RefreshByJson, RemoveById: a refresher's own `RefreshAll`, `Refresh` or `Remove` is taken to succeed. An exception thrown inside a refresher is not modelled. In the source a JsonException from it would end only its row, and any other exception would escape the sync. So `WrittenRowReplays` and `CaughtUpNodeReplaysNewRow` hold only for refreshers that do not throw.
- Instructions.Payload: which stored texts make deserializing to an array throw a JsonException, and which give a null array, follows Newtonsoft.Json's behaviour. That library is not part of this model. Invalid JSON and JSON of another type are taken to throw; the literal `null` is taken to give a null array.
- Dates: UTC versus local time (`DateTime.Now` in the handler) is not distinguished. Each operation takes a single `now`, and the prune date uses the same `now` as the sync.
- Heartbeat.ServerRegistrationEventHandler.UpdateServerEntry: a failing `EnsureActive` is modelled as failing before any write. A failure after the commit but during the sweep is not modelled. Building the address from the URL and the computer name from the machine name and application id are inputs.
- Registration.NameMatches: `ToUpper` is modelled on ASCII letters only. ListView.IsSortDirection: `toUpperCase` is modelled on ASCII letters only.
- ListView: JavaScript's loose equality and number/string coercion are not modelled. For example, a `page` route parameter stays a string until `++` converts it. Numbers are integers and comparisons are exact.
- ListView.ListViewScope.constructor: the `trim()` of configured sort settings is not modelled. An absent configured value stands for every falsy one, the empty string included.
- ListView.ListViewScope.Search: the 100 ms debounce is not modelled.
- ListView.ListViewScope.OnResults: the HTTP request and `setPropertyValues` (edit URLs, value formatting) are not modelled. The reload is a counter of requests issued.
- ListView.GetCustomPropertyValue: an undefined `properties` array, which throws in the source, is not modelled.
- Bulk delete, publish and unpublish, the create-mode exit, header localization calls and `rte.controller.js` are outside the modelled core.
- The migration's `Down` step, which drops an unrelated table, is outside the modelled core.
