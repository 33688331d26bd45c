# Outline sync: a Dafny model

This project models the synchronisation script of the Outline admin panel
(`scripts/outline-sync.ts`). The script mirrors the state of every Outline
server's management API into the local database:

- `syncServer` reads the server descriptor and the per-key transfer
  metrics. It sums the metrics into a usage total and overwrites five
  columns of the local `Server` row. Then it hands over to `syncAccessKeys`.
- `syncAccessKeys` diffs the server's local access key rows against the
  remote key list, keyed on `apiId`. It has three passes:
  - the update pass patches the matched rows;
  - the create pass inserts one row per unmatched remote key;
  - the delete pass removes the loaded rows that no remote key matches.
- `run` loads all server rows and syncs the servers one after the other.

The project has seven modules:

- `Definitions` (`definitions.dfy`): the records of both sides and the
  store's contents `Db`. A remote call's answer is a `Result`. A client is
  the value `ApiClient` holding its three answers.
- `Metrics` (`metrics.dfy`): the usage total. `MapSum` sums a map, and
  `TotalUsage` is the loop that computes it.
- `KeyReconciler` (`key_reconciler.dfy`): `syncAccessKeys` as functions of
  the store's contents. `UpdateCreatePass` is the loop over remote keys,
  `KeysToRemove` the collected ids, `DeletePass` the `deleteMany`.
- `KeyProperties` (`key_properties.dfy`): what the key sync guarantees.
  It covers which rows are patched, created and deleted, which fields are
  kept, convergence and the second run.
- `KeyIdempotence` (`idempotence.dfy`): what a second key sync against the
  same remote keys writes into each row.
- `ServerSync` (`server_sync.dfy`): `syncServer` and `run` as functions of
  the store's contents, and their properties.
- `OutlineStore` (`store.dfy`): the class `Store`. Its fields are the two
  tables and the access key autoincrement. Its methods `SyncServer`,
  `SyncAccessKeys` and `Run` update them with the script's loops. Each
  method is proved to leave exactly the state the functions above describe,
  and to keep the table invariant `ValidDb`.

Two collaborators are parameters because their bodies are not part of this
model:

- `convertDataLimitToUnit` is `convert: Converter`. Nothing is assumed
  about its scale; its result is taken to be a whole number.
- `ApiClient.fromConfig` is `connect: ClientFactory`. It maps a server's
  management JSON to a client or to an error.

In several places the code does something other than one might expect of
a sync script. The model follows the code:

- A remote limit of 0 is falsy, so it becomes a null `dataLimit`, the same
  as an absent limit.
- A missing metrics entry yields `undefined`. The store leaves `dataUsage`
  unchanged; it is not set to zero.
- The update pass overwrites `dataLimit`, converted with the row's own
  unit. One might expect the limit to be written only at creation.
- A local row with a null `apiId` matches no remote id, so the delete pass
  removes it. One might expect such a row never to be deleted.
- `run` has no per-server isolation. The first failure rejects the run,
  and the remaining servers are not synced (`FirstFailureAbortsRun`).
- The server row is written before the keys are listed. A failing key
  listing therefore leaves the server row updated
  (`KeyListingFailureKeepsServerWrite`).
- A created row's `dataUsage` is not taken from the metrics. A second run
  against the same remote keys creates and deletes nothing
  (`SecondRunNoCreatesNoDeletes`). With distinct remote ids it rewrites
  every row's name and limit to the values they already have. It leaves
  every row that existed before the first run exactly as the first run left
  it (`SecondRunRewritesSameValues`). Only a row the first run created can
  change: its usage can change, to the metrics entry when there is one
  (`SecondRunRows` with `MatchedKeyPatched`).

## Model

| member | source | states |
|---|---|---|
| `Metrics.TotalUsage` | scripts/outline-sync.ts:14-15 | The reduce over the metrics values returns their sum `MapSum`. |
| `Metrics.MapSumRemove` | scripts/outline-sync.ts:14-15 | The sum does not depend on the order in which the values are added. |
| `Metrics.MapSumInsert` | scripts/outline-sync.ts:14-15 | Adding one key's bytes adds them to the total. |
| `Metrics.MapSumBound` | scripts/outline-sync.ts:14-15 | No key's usage exceeds the total. |
| `Metrics.MapSumExample` | scripts/outline-sync.ts:14-15 | `{u1: 100, u2: 250}` sums to 350, and the empty map sums to 0. |
| `KeyReconciler.LimitFor` | scripts/outline-sync.ts:47-51 | The limit is null exactly when the remote limit is absent or 0. Otherwise it is the remote byte count converted into the given unit. |
| `KeyReconciler.FindByApiId` | scripts/outline-sync.ts:45 | `find` returns nothing exactly when no loaded row has that `apiId`. Otherwise it returns the first such row. |
| `KeyReconciler.HasRemoteId` | scripts/outline-sync.ts:92 | True exactly when some remote key's id equals the row's `apiId`, so a null `apiId` never matches. |
| `KeyReconciler.OfServer` | scripts/outline-sync.ts:34-38 | The loaded rows are exactly the table's rows of that server. |
| `KeyReconciler.KeysToRemove` | scripts/outline-sync.ts:89-98 | An id is collected exactly when it belongs to a loaded row whose `apiId` matches no remote key. |
| `KeyReconciler.RemoveIds` | scripts/outline-sync.ts:103-109 | `deleteMany` keeps exactly the rows whose id is not in the list. |
| `KeyReconciler.UsageOf` | scripts/outline-sync.ts:62 | Definition, no contract: the metrics entry for the remote id, or nothing when the entry is `undefined`. `MatchedKeyPatched` states its effect on a row. |
| `KeyReconciler.Patched` | scripts/outline-sync.ts:57-64 | Definition, no contract: the row with `name`, `dataLimit` and `dataUsage` overwritten, an `undefined` usage leaving the column as it was. `PatchedByPassKeepsIdentity` and `MatchedKeyPatched` state its properties. |
| `KeyReconciler.PatchFor` | scripts/outline-sync.ts:57-64 | Definition, no contract: the `data` of the update for a remote key and a row's unit. `MatchedKeyPatched` states its effect. |
| `KeyReconciler.UpdateById` | scripts/outline-sync.ts:57-64 | Definition, no contract: `update` patches the rows with that id and keeps every other row in place. `UpdateCreatePassShape` states its effect over the loop. |
| `KeyReconciler.NewAccessKey` | scripts/outline-sync.ts:69-83 | Definition, no contract: the row `create` inserts. `CreatedRowFields` states its fields. |
| `KeyReconciler.ApplyRemoteKey` | scripts/outline-sync.ts:45-84 | Definition, no contract: one iteration of the loop, an update when `find` returns a row and a create otherwise. `UpdateCreatePassShape` states its effect over the loop. |
| `KeyReconciler.UpdateCreatePass` | scripts/outline-sync.ts:43-85 | Definition, no contract: the loop over remote keys. `UpdateCreatePassShape` and `UpdateCreatePassKeepsServers` state its properties. |
| `KeyReconciler.PatchedByPass` | scripts/outline-sync.ts:43-64 | Definition, no contract: a loaded row after every update of the loop. `PatchedByPassKeepsIdentity`, `PatchedByPassMiss` and `PatchedByPassHit` state its properties. |
| `KeyReconciler.DeletePass` | scripts/outline-sync.ts:100-112 | Definition, no contract: `deleteMany` runs only when ids were collected. `SyncedMembership` and `DeletesExactlyOrphans` state its effect. |
| `KeyReconciler.SyncedAccessKeys` | scripts/outline-sync.ts:32-113 | Definition, no contract: load, update/create pass, delete pass. The `KeyProperties` lemmas state its properties. |
| `KeyReconciler.AccessKeysSynced` | scripts/outline-sync.ts:32-113 | Definition, no contract: a failed key listing rejects before any row is written. `OutlineStore.Store.SyncAccessKeys` is proved against it. |
| `KeyReconciler.Unmatched` | scripts/outline-sync.ts:45-53 | The remote keys for which `find` returns nothing, and only those. |
| `KeyProperties.PatchedByPassKeepsIdentity` | scripts/outline-sync.ts:57-64 | The update pass rewrites only `name`, `dataLimit` and `dataUsage`. Id, server, `apiId`, prefix, expiry, unit and connection fields are kept. |
| `KeyProperties.PatchedByPassMiss` | scripts/outline-sync.ts:43-64 | A row that no remote key's `find` returns is left exactly as it was. |
| `KeyProperties.PatchedByPassHit` | scripts/outline-sync.ts:43-64 | With distinct remote ids, the row `find` returns for a key ends up patched by that key alone, using the row's own unit. |
| `KeyProperties.UpdateCreatePassShape` | scripts/outline-sync.ts:43-85 | The loop keeps every row in place, patched, and appends one row per unmatched remote key in remote order, numbered from the autoincrement. |
| `KeyProperties.UpdateCreatePassKeepsServers` | scripts/outline-sync.ts:43-85 | The key loop writes no server row. |
| `KeyProperties.RemovedIdOwner` | scripts/outline-sync.ts:89-98 | Under the table invariant, a row's id is collected for removal exactly when the row is of the synced server and matches no remote key. |
| `KeyProperties.SyncedMembership` | scripts/outline-sync.ts:100-109 | The delete pass keeps exactly the rows of the update/create pass whose ids were not collected, and touches no server row. |
| `KeyProperties.SyncedRows` | scripts/outline-sync.ts:32-113 | After the key sync, each old row, patched, is present exactly when it is kept. Every created row is present, and there is no other row. |
| `KeyProperties.DeletesExactlyOrphans` | scripts/outline-sync.ts:89-109 | A row is deleted exactly when it belongs to the synced server and its `apiId` matches no remote key. |
| `KeyProperties.NullApiIdDeleted` | scripts/outline-sync.ts:92 | A row of the synced server with a null `apiId` is deleted. |
| `KeyProperties.SurvivorsKeepIdentity` | scripts/outline-sync.ts:57-64 | A row that survives keeps its id, server, `apiId`, prefix, expiry, unit and connection fields. |
| `KeyProperties.OtherServersUntouched` | scripts/outline-sync.ts:32-113 | The rows of every other server are neither changed, deleted nor added. |
| `KeyProperties.MatchedKeyPatched` | scripts/outline-sync.ts:45-64 | With distinct remote ids, a matched row ends up with the remote name and the limit converted with its own unit. Its usage comes from the metrics entry, or stays as it was when there is none. Everything else is kept. |
| `KeyProperties.CreatedRowFields` | scripts/outline-sync.ts:69-83 | A created row has the synced server, the remote id as `apiId`, the remote name and connection fields, unit `Bytes`, no prefix, no expiry and usage 0. Its limit is null exactly when the remote limit is absent or 0, and otherwise it is the remote byte count converted into `Bytes`. |
| `KeyProperties.UnmatchedKeysCreated` | scripts/outline-sync.ts:65-83 | Every unmatched remote key yields a created row, and every row with a new id is one of them. The autoincrement advances by their number. |
| `KeyProperties.ApiIdsConverge` | scripts/outline-sync.ts:43-109 | Afterwards, the set of `apiId`s among the server's rows equals the set of remote ids. |
| `KeyProperties.SyncedKeepsValid` | scripts/outline-sync.ts:69-109 | The key sync keeps ids unique and below the autoincrement. |
| `KeyProperties.NothingUnmatched` | scripts/outline-sync.ts:43-85 | When every remote id has a loaded row, nothing is created. |
| `KeyProperties.NothingToRemove` | scripts/outline-sync.ts:89-98 | When every loaded row matches a remote key, nothing is collected for removal. |
| `KeyProperties.SecondRunNoCreatesNoDeletes` | scripts/outline-sync.ts:43-109 | A second sync against the same remote keys creates and deletes nothing. Every row keeps its place and identity. |
| `KeyIdempotence.SyncedRowsAsSequence` | scripts/outline-sync.ts:43-109 | The rows after a key sync are the old rows, each patched, followed by one created row per unmatched remote key, less the collected ids. |
| `KeyIdempotence.MatchedRowsNotRemoved` | scripts/outline-sync.ts:89-109 | No patched or created row whose `apiId` is a remote id has its id collected for removal. |
| `KeyIdempotence.SecondRunFind` | scripts/outline-sync.ts:45 | With distinct remote ids, in a second run `find` returns the row the first run patched for that key, or else the row the first run created for it. |
| `KeyIdempotence.SecondRunRows` | scripts/outline-sync.ts:43-109 | The second run keeps the row count, and each row is the first run's row patched by the second update pass. |
| `KeyIdempotence.SecondRunRewritesSameValues` | scripts/outline-sync.ts:43-109 | With distinct remote ids, the second run keeps every row's identity, name and limit. A row whose id predates the first run is left exactly as the first run left it. |
| `ServerSync.ServerUpdated` | scripts/outline-sync.ts:18-27 | Definition, no contract: `server.update` on the row with that id. `ServerUpdatedFrame` states what it writes and keeps. |
| `ServerSync.ServerSynced` | scripts/outline-sync.ts:7-30 | Definition, no contract: `syncServer` as a step of the store. `FetchFailureWritesNothing`, `KeyListingFailureKeepsServerWrite`, `ServerSyncedSuccess` and `ServerSyncedKeepsValid` state its properties. |
| `ServerSync.FleetSynced` | scripts/outline-sync.ts:115-127 | Definition, no contract: `run` over the loaded server rows. `FleetAppend`, `FirstFailureAbortsRun`, `FleetKeepsValid` and `FleetKeepsServerIdentities` state its properties. |
| `ServerSync.ServerUpdatedFrame` | scripts/outline-sync.ts:18-27 | The server update writes exactly the five columns, from the descriptor and the total. Other columns and other rows are unchanged. |
| `ServerSync.FetchFailureWritesNothing` | scripts/outline-sync.ts:9-12 | A failing descriptor or metrics read rejects with its error and leaves the store untouched. |
| `ServerSync.KeyListingFailureKeepsServerWrite` | scripts/outline-sync.ts:18-41 | A failing key listing rejects after the server row was written. No access key row is touched. |
| `ServerSync.ServerSyncedSuccess` | scripts/outline-sync.ts:14-29 | On success, the server row carries the descriptor's fields and the metrics sum, which bounds every key's usage. The rest of the row is kept, and the keys converge on the remote ids. |
| `ServerSync.ServerSyncedKeepsValid` | scripts/outline-sync.ts:7-30 | Syncing a server keeps the table invariant, whatever the outcome. |
| `ServerSync.ServerSyncedKeepsServerIdentities` | scripts/outline-sync.ts:18-27 | Syncing a server rewrites at most the five columns of server rows. |
| `ServerSync.FleetAppend` | scripts/outline-sync.ts:120-126 | A run over `p + q` is a run over `p`, then, if that did not fail, a run over `q` from the store it left. |
| `ServerSync.FirstFailureAbortsRun` | scripts/outline-sync.ts:120-126 | When a server fails after the earlier ones succeeded, the run ends with that failure and the later servers are never synced. |
| `ServerSync.FleetKeepsValid` | scripts/outline-sync.ts:115-127 | A run keeps the table invariant, whatever its outcome. |
| `ServerSync.FleetKeepsServerIdentities` | scripts/outline-sync.ts:115-127 | A run neither adds, removes nor reorders server rows, and rewrites only the five columns. |
| `OutlineStore.CollectKeysToRemove` | scripts/outline-sync.ts:89-98 | The `push` loop builds exactly `KeysToRemove`. |
| `OutlineStore.Store.UpdateOrCreateKeys` | scripts/outline-sync.ts:43-85 | The loop over remote keys leaves the store as `UpdateCreatePass` says. |
| `OutlineStore.Store.SyncAccessKeys` | scripts/outline-sync.ts:32-113 | The store ends as `AccessKeysSynced` says, with the same outcome, and keeps the table invariant. |
| `OutlineStore.Store.SyncServer` | scripts/outline-sync.ts:7-30 | The store ends as `ServerSynced` says, with the same outcome, and keeps the table invariant. |
| `OutlineStore.Store.Run` | scripts/outline-sync.ts:115-127 | The store ends as `FleetSynced` over the server rows loaded at the start says, with the same outcome. |

## Left out

- Console output and the `.then`/`.catch` reporting at the end of the script (lines 129-136). They have no effect on the store.
- Async and Promise plumbing. The script awaits every call in turn, so the model runs the calls sequentially, and a rejection is a `Failed` outcome.
- Prisma and the management API are not modelled as I/O. The tables are the `Store` fields, and each remote read is a `Result` value held by `ApiClient`.
- `ApiClient.fromConfig` is not modelled; it is the `connect` parameter.
- `convertDataLimitToUnit` is not modelled; it is the `convert` parameter, with no scale assumed. So `CreatedRowFields` states that a created row's limit is the byte count converted into `Bytes`, and not that this equals the byte count.
- JavaScript `number` is modelled as an unbounded natural number. This covers the metrics values and their reduce total, `dataLimitInBytes`, and the converter's result. The converter is taken to return a whole number, although a conversion such as 500000000 bytes into `Gigabytes` is fractional in the source. Floating-point rounding of the total is not modelled.
- The store's own calls never fail in the model: `findMany` (lines 34 and 117), `accessKey.update` (line 57), `accessKey.create` (line 69) and `deleteMany` (line 103). In the source, a rejection in the middle of the key loop keeps the key writes made before it and aborts `run`.
- The `DataLimitUnit` enum's definition is not part of this model. It is modelled as four units.
- The schema's default for a created row's `dataUsage` is not part of this model, so it is taken as 0.
- The `method` column is called `cipherMethod`, because `method` is a Dafny keyword.
- `prisma.accessKey.update` on a missing id would throw. This cannot happen in a single run: the row was loaded just before and nothing deletes it in between. The model therefore does not model that error.
- Writes by other processes between the script's reads and writes are not modelled.
- `SecondRunFind`, `SecondRunRewritesSameValues`: `findMany` (lines 34 and 117) has no `orderBy`, so the database decides the order of the loaded rows. The model takes that order to be the table's order, and an update keeps each row in its place. This decides which row `find` returns when two rows of a server share an `apiId`. With such rows, a database that reorders them between runs could make the second run patch the other row; these lemmas do not cover that.
- `PatchedByPassHit`, `MatchedKeyPatched`: stated only for a remote list with distinct ids. With a repeated id, the last occurrence wins; `PatchedByPass` defines that case.
- The React components and the other UI files of the repository are not part of this model.
