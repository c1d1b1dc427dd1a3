/**
 The outcome of one online synchronisation, as functions of the local and
 remote tables before it: the push phase walks the active local records
 (those the active listing returns), the pull phase copies in the remote
 rows that have no local record. The `Database.Sync` method is proved to
 produce exactly `SyncedLocal` and `SyncedRemote`; the lemmas below state
 what those promise.
 */
module Reconcile {
  import opened Records

  /**
   What the push phase does to one record it reaches: a MODIFIED record
   becomes CONFLICT when the remote version is strictly greater, SYNCED
   otherwise; a record in any other state is left alone.
   */
  function Reconciled(item: Item, remote: map<string, RemoteRow>): Item
  {
    if item.status != Modified then item
    else if Conflicts(RemoteVersion(remote, item.id), item.version) then item.(status := Conflict)
    else item.(status := Synced)
  }

  /** The push phase writes this record to the remote table. */
  predicate Pushes(item: Item, remote: map<string, RemoteRow>)
  {
    item.status == Modified && !Conflicts(RemoteVersion(remote, item.id), item.version)
  }

  /** Key `k` has been reached by the push phase and its record was written remotely. */
  predicate PushedAt(local: map<string, Item>, remote: map<string, RemoteRow>, done: set<string>, k: string)
  {
    k in local && k in done && Pushes(local[k], remote)
  }

  /** The local table once the push phase has reached the records whose ids are in `done`. */
  function PushedLocal(local: map<string, Item>, remote: map<string, RemoteRow>, done: set<string>): map<string, Item>
  {
    map k | k in local :: if k in done then Reconciled(local[k], remote) else local[k]
  }

  /** The remote table once the push phase has reached the records whose ids are in `done`. */
  function PushedRemote(local: map<string, Item>, remote: map<string, RemoteRow>, done: set<string>): map<string, RemoteRow>
  {
    map k | k in remote.Keys + local.Keys && (k in remote || PushedAt(local, remote, done, k)) ::
      if PushedAt(local, remote, done, k) then UpsertRow(RowOf(remote, k), local[k]) else remote[k]
  }

  /** The pull phase: every remote row without a local record is added as SYNCED; nothing else changes. */
  function Pull(local: map<string, Item>, remote: map<string, RemoteRow>): map<string, Item>
  {
    local + map k | k in remote && k !in local :: FromRemote(remote[k])
  }

  /** The remote table after an online sync. */
  function SyncedRemote(local: map<string, Item>, remote: map<string, RemoteRow>): map<string, RemoteRow>
  {
    PushedRemote(local, remote, ActiveIds(local))
  }

  /** The local table after an online sync. */
  function SyncedLocal(local: map<string, Item>, remote: map<string, RemoteRow>): map<string, Item>
  {
    Pull(PushedLocal(local, remote, ActiveIds(local)), SyncedRemote(local, remote))
  }

  // ---------------------------------------------------------------------
  // One step of each phase, as the loops of `Database.Sync` take them.

  /** Reaching one more record changes the local table at that record only. */
  lemma PushedLocalStep(local: map<string, Item>, remote: map<string, RemoteRow>, done: set<string>, id: string)
    requires id in local && id !in done
    ensures PushedLocal(local, remote, done + {id}) == PushedLocal(local, remote, done)[id := Reconciled(local[id], remote)]
  {
  }

  /**
   Before a record is reached, the remote table still holds its original row
   (or none); reaching it performs the insert-or-update exactly when it is pushed.
   */
  lemma PushedRemoteStep(local: map<string, Item>, remote: map<string, RemoteRow>, done: set<string>, id: string)
    requires LocalKeyed(local)
    requires id in local && id !in done
    ensures RowOf(PushedRemote(local, remote, done), id) == RowOf(remote, id)
    ensures PushedRemote(local, remote, done + {id}) ==
      if Pushes(local[id], remote) then Upsert(PushedRemote(local, remote, done), local[id])
      else PushedRemote(local, remote, done)
  {
  }

  /** Pulling one more remote row inserts it exactly when no local record has its id. */
  lemma PullStep(local: map<string, Item>, remote: map<string, RemoteRow>, pending: set<string>, id: string)
    requires id in pending && pending <= remote.Keys
    ensures id in Pull(local, remote - pending) <==> id in local
    ensures Pull(local, remote - (pending - {id})) ==
      if id in local then Pull(local, remote - pending)
      else Pull(local, remote - pending)[id := FromRemote(remote[id])]
  {
  }

  /** The pull phase never overwrites a record that is present locally, whatever its status. */
  lemma PullKeepsPresent(local: map<string, Item>, remote: map<string, RemoteRow>)
    ensures Pull(local, remote).Keys == local.Keys + remote.Keys
    ensures forall k | k in local :: Pull(local, remote)[k] == local[k]
    ensures forall k | k in remote && k !in local :: Pull(local, remote)[k] == FromRemote(remote[k])
  {
  }

  // ---------------------------------------------------------------------
  // What one online sync promises.

  /**
   A MODIFIED record whose remote row has a strictly greater version
   becomes CONFLICT, with every other column kept, and its remote row is
   left exactly as it was.
   */
  lemma SyncFlagsConflict(local: map<string, Item>, remote: map<string, RemoteRow>, k: string)
    requires LocalKeyed(local)
    requires k in local && local[k].status == Modified
    requires Conflicts(RemoteVersion(remote, k), local[k].version)
    ensures k in SyncedLocal(local, remote) && SyncedLocal(local, remote)[k] == local[k].(status := Conflict)
    ensures k in SyncedRemote(local, remote) && SyncedRemote(local, remote)[k] == remote[k]
  {
  }

  /**
   A MODIFIED record with no remote row, or one whose version is not
   greater, is written remotely by insert-or-update (see `UpsertRow`: its
   columns, status "synced", the existing creation time kept) and becomes
   SYNCED locally with every other column kept.
   */
  lemma SyncPushesRecord(local: map<string, Item>, remote: map<string, RemoteRow>, k: string)
    requires LocalKeyed(local)
    requires k in local && local[k].status == Modified
    requires !Conflicts(RemoteVersion(remote, k), local[k].version)
    ensures k in SyncedLocal(local, remote) && SyncedLocal(local, remote)[k] == local[k].(status := Synced)
    ensures k in SyncedRemote(local, remote) && SyncedRemote(local, remote)[k] == UpsertRow(RowOf(remote, k), local[k])
  {
  }

  /** Records that are SYNCED, CONFLICT or DELETED are not touched by a sync. */
  lemma SyncKeepsUnmodified(local: map<string, Item>, remote: map<string, RemoteRow>, k: string)
    requires k in local && local[k].status != Modified
    ensures k in SyncedLocal(local, remote) && SyncedLocal(local, remote)[k] == local[k]
  {
  }

  /**
   No remote row is deleted, and a remote row changes only where a
   MODIFIED local record was pushed; the remote table gains exactly the
   ids of the pushed records it did not have.
   */
  lemma SyncRemoteChanges(local: map<string, Item>, remote: map<string, RemoteRow>)
    ensures SyncedRemote(local, remote).Keys ==
      remote.Keys + (set k | k in local && Pushes(local[k], remote))
    ensures forall k | k in remote && !(k in local && Pushes(local[k], remote)) ::
      SyncedRemote(local, remote)[k] == remote[k]
  {
  }

  /**
   A sync creates a local record for each remote id it did not know and for
   no other id, and removes none: whatever the statuses, the local ids
   afterwards are the old local ids plus the old remote ids.
   */
  lemma SyncKeys(local: map<string, Item>, remote: map<string, RemoteRow>)
    ensures SyncedLocal(local, remote).Keys == local.Keys + remote.Keys
    ensures SyncedRemote(local, remote).Keys <= local.Keys + remote.Keys
  {
  }

  /**
   The pull phase adds exactly the remote rows whose id is missing locally,
   each with the remote's columns and status SYNCED; every local record is
   kept under its id (changed only by the push phase).
   */
  lemma SyncPullsMissing(local: map<string, Item>, remote: map<string, RemoteRow>, k: string)
    requires k in remote && k !in local
    ensures k in SyncedLocal(local, remote) && SyncedLocal(local, remote)[k] == FromRemote(remote[k])
  {
  }

  /** After an online sync no record is MODIFIED and every remote id is present locally. */
  lemma SyncSettles(local: map<string, Item>, remote: map<string, RemoteRow>)
    ensures forall k | k in SyncedLocal(local, remote) :: SyncedLocal(local, remote)[k].status != Modified
    ensures SyncedRemote(local, remote).Keys <= SyncedLocal(local, remote).Keys
  {
  }

  /**
   Tables in which no record is MODIFIED and every remote id is present
   locally are left as they are by an online sync.
   */
  lemma SettledIsFixpoint(local: map<string, Item>, remote: map<string, RemoteRow>)
    requires forall k | k in local :: local[k].status != Modified
    requires remote.Keys <= local.Keys
    ensures SyncedLocal(local, remote) == local
    ensures SyncedRemote(local, remote) == remote
  {
  }

  /** A second online sync with no change in between leaves both tables as they are. */
  lemma SyncIdempotent(local: map<string, Item>, remote: map<string, RemoteRow>)
    ensures SyncedLocal(SyncedLocal(local, remote), SyncedRemote(local, remote)) == SyncedLocal(local, remote)
    ensures SyncedRemote(SyncedLocal(local, remote), SyncedRemote(local, remote)) == SyncedRemote(local, remote)
  {
    SyncSettles(local, remote);
    SettledIsFixpoint(SyncedLocal(local, remote), SyncedRemote(local, remote));
  }
}
