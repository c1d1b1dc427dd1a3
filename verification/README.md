# Offline-first item store with version-checked sync

A Dafny model of the `Database` class of `pyside-demo/database.py`. The class
keeps items in a local SQLite table that can be edited while offline. It
reconciles them with a remote PostgreSQL `items` table by an
optimistic-concurrency version counter.

Each local record carries a status: SYNCED, MODIFIED, DELETED or CONFLICT.
Local edits mark a record MODIFIED. A sync goes through the active records:
- a MODIFIED record whose remote row has a strictly greater version is flagged CONFLICT;
- otherwise the record is written remotely by insert-or-update and becomes SYNCED.

The sync then copies in every remote row that has no local record. A
conflict is resolved by the caller's choice.

Files:
- `records.dfy` (module `Records`): the status, the local `Item` and remote `RemoteRow` rows, the column defaults of a new record, the active-listing filter, the version query, the conflict rule and the insert-or-update statement.
- `reconcile.dfy` (module `Reconcile`): one online sync as functions of the two tables before it (`SyncedLocal`, `SyncedRemote`). It also holds the lemmas about those functions, including that a sync leaves no MODIFIED record and that a second sync changes nothing.
- `database.dfy` (module `Store`): the class `Database`. Its fields `local` and `remote` are the two tables, as maps from id to row. Its methods mutate them as the Python methods mutate the databases, and each method's `ensures` gives the complete new state.
- `Store.ConflictScenario`: a client of the class. It adds a record and syncs. It then edits the record while another writer raises the remote version to 5, syncs again, and checks that the record is CONFLICT and the remote row unchanged.

The model follows the code as written, including where its behaviour is
surprising:
- `get_items` leaves out DELETED records (line 105), and sync walks that listing (line 134). The remote-delete branch (lines 164-168) is therefore never taken. `PushItem` models that branch, but the sync never deletes a remote row (`SyncRemoteChanges`).
- `update_item` does not check the status, so an edit revives a DELETED record as MODIFIED.
- The `updated_at` column is declared with `onupdate=datetime.utcnow` (line 67). The ORM refreshes it whenever it issues an UPDATE for a row, which it does only when some column really changes. `update_item` always changes the version, and `resolve_conflict('local')` always changes the status, so both set `updated_at` to the `now` parameter. `delete_item` therefore changes `updated_at` as well as the status, except on a record that is already DELETED, which it leaves as it is.
- The `'remote'` branch of `resolve_conflict` is `pass` (lines 209-212). It is modelled as leaving the record unchanged. The record stays CONFLICT; the remote row is not fetched.
- Sync sets the status at lines 147 and 162 on objects whose session was closed at line 106. The model assumes these assignments take effect in the local table, which is what the code evidently means. The status is the only field changed.

## Model

| member | source | states |
|---|---|---|
| Records.StatusValue | pyside-demo/database.py:54-58 | the enum's values; only SYNCED has the value "synced", the literal the push writes at line 159 |
| Records.NewItem | pyside-demo/database.py:63-69 | the column defaults of a new record; `Store.Database.AddItem` states them (version 1, MODIFIED, both timestamps `now`) |
| Records.ActiveIds | pyside-demo/database.py:105 | the filter of the active listing; `Store.Database.GetItems` and `Store.Database.DeleteItem` state what it keeps |
| Records.RemoteVersion | pyside-demo/database.py:140-143 | the version query; its use in the conflict rule is stated by `Reconcile.SyncFlagsConflict` and `Reconcile.SyncPushesRecord` |
| Records.Conflicts | pyside-demo/database.py:145 | the strict conflict rule; `Reconcile.SyncFlagsConflict` and `Reconcile.SyncPushesRecord` state its two outcomes, equal versions included in the push |
| Records.UpsertRow | pyside-demo/database.py:28-37 | pulling a pushed row back gives the pushed record as SYNCED, with `created_at` taken from the row that already existed, if any; the row's status is SYNCED's value |
| Records.Upsert | pyside-demo/database.py:150-161 | insert-or-update keeps the remote table keyed by id |
| Records.UpsertIdempotent | pyside-demo/database.py:28-37 | running the insert-or-update of the same record twice leaves the table as running it once |
| Records.FromRemote | pyside-demo/database.py:178-186 | the record a pull creates; `Reconcile.PullKeepsPresent` and `Reconcile.SyncPullsMissing` state it (the remote's columns, status SYNCED) |
| Reconcile.Reconciled | pyside-demo/database.py:138-162 | what the push does to one listed record; stated by `Reconcile.SyncFlagsConflict`, `Reconcile.SyncPushesRecord` and `Reconcile.SyncKeepsUnmodified` |
| Reconcile.Pull | pyside-demo/database.py:175-187 | the pull phase; stated by `Reconcile.PullKeepsPresent` and `Reconcile.PullStep` |
| Reconcile.PushedLocalStep | pyside-demo/database.py:137-162 | handling one more listed record changes the local table at that record only |
| Reconcile.PushedRemoteStep | pyside-demo/database.py:138-162 | a record not yet handled still sees its original remote row; handling it does the insert-or-update exactly when it is pushed and leaves the remote table alone otherwise |
| Reconcile.PullStep | pyside-demo/database.py:175-187 | pulling one more remote row inserts it exactly when no local record has its id |
| Reconcile.PullKeepsPresent | pyside-demo/database.py:174-189 | the pull keeps every present local record as it is, whatever its status, and adds each remote row whose id is missing locally as a SYNCED record with the row's columns |
| Reconcile.SyncFlagsConflict | pyside-demo/database.py:138-147 | a MODIFIED record whose remote version is strictly greater becomes CONFLICT with its other fields kept, and its remote row is untouched |
| Reconcile.SyncPushesRecord | pyside-demo/database.py:145-162 | a MODIFIED record with no remote row, or with a remote version that is equal or lower, is upserted remotely and becomes SYNCED with its other fields kept |
| Reconcile.SyncKeepsUnmodified | pyside-demo/database.py:134-168 | SYNCED, CONFLICT and DELETED records come out of a sync unchanged |
| Reconcile.SyncRemoteChanges | pyside-demo/database.py:134-168 | a sync deletes no remote row; it adds exactly the ids of pushed records that were missing remotely, and changes no row other than those of pushed records |
| Reconcile.SyncKeys | pyside-demo/database.py:134-189 | whatever the statuses, after a sync the local ids are exactly the old local ids plus the old remote ids, and the remote ids stay within that set |
| Reconcile.SyncPullsMissing | pyside-demo/database.py:170-189 | a remote row missing locally arrives with the remote's fields and status SYNCED |
| Reconcile.SyncSettles | pyside-demo/database.py:116-189 | after an online sync no record is MODIFIED and every remote id is present locally |
| Reconcile.SettledIsFixpoint | pyside-demo/database.py:116-189 | when no record is MODIFIED and every remote id is present locally, an online sync changes neither table |
| Reconcile.SyncIdempotent | pyside-demo/database.py:116-189 | a second online sync with no change in between leaves both tables unchanged |
| Store.Database.constructor | pyside-demo/database.py:72-75 | the store opens over the existing contents of both tables |
| Store.Database.AddItem | pyside-demo/database.py:63-82 | adds exactly one record under the fresh id, with version 1, status MODIFIED and both timestamps `now`; existing records and the remote table are unchanged |
| Store.Database.UpdateItem | pyside-demo/database.py:84-93 | for an existing id: sets name and description, adds exactly 1 to the version, refreshes `updated_at` and sets MODIFIED whatever the prior status, DELETED included; for a missing id: changes nothing |
| Store.Database.DeleteItem | pyside-demo/database.py:95-101 | sets the status to DELETED and refreshes `updated_at`, and changes nothing else; a record already DELETED is kept as it is, since no UPDATE is issued; the record stays stored and its id leaves the active listing; a missing id changes nothing |
| Store.Database.GetItems | pyside-demo/database.py:103-107 | returns each non-DELETED record once, as stored, and nothing else |
| Store.Database.PushItem | pyside-demo/database.py:138-168 | for one listed record, performs the conflict check and then either sets CONFLICT, or upserts remotely and sets SYNCED; a DELETED record has its remote row deleted; SYNCED and CONFLICT records change nothing |
| Store.Database.PushAll | pyside-demo/database.py:133-168 | the push loop over the active listing yields the push-phase tables of `SyncedLocal` and `SyncedRemote` |
| Store.Database.PullMissing | pyside-demo/database.py:170-189 | the pull loop adds exactly the remote rows missing locally, as SYNCED records, and reads the remote table without changing it |
| Store.Database.Sync | pyside-demo/database.py:116-193 | offline, both tables are unchanged; online, they become `SyncedLocal` and `SyncedRemote` of the tables before the call |
| Store.Database.ResolveConflict | pyside-demo/database.py:203-214 | only an existing CONFLICT record with choice "local" changes: it becomes MODIFIED and its `updated_at` is refreshed, with every other field kept; "remote", any other choice, a missing record or a record not in CONFLICT changes nothing |

## Left out

- The SQLAlchemy engine, sessions and ORM, and the psycopg2 connection and cursor: both stores are maps from id to row.
- The connectivity probe `is_online`, an HTTP request: it is the `online` parameter of `Sync`.
- Identity generation (`uuid.uuid4`) and the clock (`datetime.utcnow`): the fresh id and the timestamp are parameters. `AddItem` requires that the id is not already stored.
- Store.Database.AddItem: both timestamps are one `now`, whereas the column defaults call the clock twice.
- The connection parameters of `sync_with_postgresql` (host, database, user, password), and `CREATE TABLE IF NOT EXISTS`: the remote table is assumed to exist, and a freshly created one is the empty map.
- Exceptions and `print` output (lines 117-119 and 193-201), the possibly unbound `conn` in `finally`, and the order of the local and remote commits: these concern partial failure, not the reconciliation rule. A sync either completes or is not modelled.
- Column widths: the remote `version` column is a 32-bit `INTEGER` (line 23), and `id` and `name` are `VARCHAR(255)` (lines 18-19). A local version above 2^31-1, or an id or name longer than 255 characters, makes the insert-or-update at lines 150-161 fail, and the whole sync then aborts at lines 195-196. The model's versions and strings are unbounded, so its `Sync` always completes.
- SQL `NULL` column values, and how SQLAlchemy stores the status enum in SQLite.
- The order of the records in the active listing is unspecified, and the model makes no claim about it.
- Store.Database.PushItem: the status writes at lines 147 and 162 apply to objects detached from a closed session. The model assumes they take effect in the local table; a flush would also refresh `updated_at`, which the model does not do.
- Store.Database.ResolveConflict: the remote-wins path does not fetch the remote row, since the code has no such fetch.
- Sync reports, cancellation, serialising concurrent syncs and purging tombstones: the code has none of these.
