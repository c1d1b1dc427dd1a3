/**
 The records the offline-first store keeps: the local `Item` row with its
 synchronisation status, the row of the remote `items` table, and the pure
 pieces of SQL the synchronisation relies on (the conflict check, the
 insert-or-update of a pushed row, the row a pull inserts locally).
 */
module Records {

  datatype Option<T> = None | Some(value: T)

  /** Timestamps are opaque: the model only copies and compares them. */
  type Timestamp = int

  /** The four local synchronisation states. */
  datatype SyncStatus = Synced | Modified | Deleted | Conflict

  /** The value of each state in the status enum. */
  function StatusValue(s: SyncStatus): (v: string)
    ensures 0 < |v| <= 20
    ensures v == "synced" <==> s == Synced
  {
    match s
    case Synced => "synced"
    case Modified => "modified"
    case Deleted => "deleted"
    case Conflict => "conflict"
  }

  /** A row of the local table. */
  datatype Item = Item(
    id: string,
    name: string,
    description: string,
    createdAt: Timestamp,
    updatedAt: Timestamp,
    version: int,
    status: SyncStatus)

  /** A row of the remote table; its status column is free text. */
  datatype RemoteRow = RemoteRow(
    id: string,
    name: string,
    description: string,
    createdAt: Timestamp,
    updatedAt: Timestamp,
    version: int,
    syncStatus: string)

  /** Every local record is stored under its own id. */
  predicate LocalKeyed(local: map<string, Item>)
  {
    forall k | k in local :: local[k].id == k
  }

  /** Every remote row is stored under its own id (the table's primary key). */
  predicate RemoteKeyed(remote: map<string, RemoteRow>)
  {
    forall k | k in remote :: remote[k].id == k
  }

  /** A freshly created record, with the column defaults of the local table. */
  function NewItem(id: string, name: string, description: string, now: Timestamp): Item
  {
    Item(id, name, description, now, now, 1, Modified)
  }

  /** The ids of the records the active listing returns: every status but DELETED. */
  function ActiveIds(local: map<string, Item>): set<string>
  {
    set k | k in local && local[k].status != Deleted
  }

  /** The one-column result of the version query on the remote table. */
  function RemoteVersion(remote: map<string, RemoteRow>, id: string): Option<int>
  {
    if id in remote then Some(remote[id].version) else None
  }

  /**
   The conflict rule: a remote row exists and its version is strictly
   greater than the local one. Equal versions do not conflict.
   */
  predicate Conflicts(remoteVersion: Option<int>, localVersion: int)
  {
    remoteVersion.Some? && remoteVersion.value > localVersion
  }

  /**
   The row the insert-or-update statement leaves for a pushed record: all
   columns come from the record and the status is "synced", except that an
   existing row keeps its own creation time. Pulling that row back gives
   the pushed record as SYNCED, with the creation time of the row that was
   already there, if any.
   */
  function UpsertRow(existing: Option<RemoteRow>, item: Item): (row: RemoteRow)
    ensures row.syncStatus == StatusValue(Synced)
    ensures FromRemote(row) ==
      if existing.Some? then item.(status := Synced, createdAt := existing.value.createdAt)
      else item.(status := Synced)
  {
    var created := if existing.Some? then existing.value.createdAt else item.createdAt;
    RemoteRow(item.id, item.name, item.description, created, item.updatedAt, item.version, "synced")
  }

  /** The remote table after the insert-or-update of one pushed record. */
  function Upsert(remote: map<string, RemoteRow>, item: Item): (r: map<string, RemoteRow>)
    ensures RemoteKeyed(remote) ==> RemoteKeyed(r)
  {
    remote[item.id := UpsertRow(RowOf(remote, item.id), item)]
  }

  /** The existing remote row with the given id, if any. */
  function RowOf(remote: map<string, RemoteRow>, id: string): Option<RemoteRow>
  {
    if id in remote then Some(remote[id]) else None
  }

  /**
   Running the insert-or-update of the same record twice leaves the table
   as running it once: a retried push changes nothing more.
   */
  lemma UpsertIdempotent(remote: map<string, RemoteRow>, item: Item)
    ensures Upsert(Upsert(remote, item), item) == Upsert(remote, item)
  {
  }

  /** The local record a pull creates from a remote row: the row's columns, status SYNCED. */
  function FromRemote(row: RemoteRow): Item
  {
    Item(row.id, row.name, row.description, row.createdAt, row.updatedAt, row.version, Synced)
  }
}
