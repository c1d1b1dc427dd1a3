/**
 The offline-first store: a local table that is edited while disconnected
 and a remote table it reconciles with. Both tables are maps from record id
 to row; the class methods change them in place as the store's methods
 change the two databases.
 */
module Store {
  import opened Records
  import opened Reconcile

  /** The ids of a sequence of records. */
  function Ids(items: seq<Item>): set<string>
  {
    set j | 0 <= j < |items| :: items[j].id
  }

  class Database {
    /** The local table. */
    var local: map<string, Item>
    /** The remote table. */
    var remote: map<string, RemoteRow>

    /** Both tables are keyed by their rows' ids. */
    ghost predicate Valid()
      reads this
    {
      LocalKeyed(local) && RemoteKeyed(remote)
    }

    /** Opens the store over whatever the two tables already hold. */
    constructor (stored: map<string, Item>, server: map<string, RemoteRow>)
      requires LocalKeyed(stored) && RemoteKeyed(server)
      ensures Valid()
      ensures local == stored && remote == server
    {
      local := stored;
      remote := server;
    }

    /**
     Creates a record with the given fresh id: version 1, status MODIFIED,
     both timestamps `now`. Nothing else changes.
     */
    method AddItem(id: string, name: string, description: string, now: Timestamp)
      requires Valid()
      requires id !in local
      modifies this
      ensures Valid()
      ensures local == old(local)[id := NewItem(id, name, description, now)]
      ensures local[id].version == 1 && local[id].status == Modified
      ensures local[id].name == name && local[id].description == description
      ensures local[id].createdAt == now && local[id].updatedAt == now
      ensures |local| == |old(local)| + 1
      ensures remote == old(remote)
    {
      local := local[id := NewItem(id, name, description, now)];
    }

    /**
     Overwrites name and description of an existing record, adds 1 to its
     version and marks it MODIFIED whatever its status was (a DELETED record
     comes back); `updated_at` is refreshed. A missing id changes nothing.
     */
    method UpdateItem(id: string, name: string, description: string, now: Timestamp)
      requires Valid()
      modifies this
      ensures Valid()
      ensures id in old(local) ==> local == old(local)[id := old(local)[id].(
        name := name, description := description, updatedAt := now,
        version := old(local)[id].version + 1, status := Modified)]
      ensures id !in old(local) ==> local == old(local)
      ensures local.Keys == old(local).Keys
      ensures remote == old(remote)
    {
      if id in local {
        var item := local[id];
        local := local[id := item.(name := name, description := description, updatedAt := now,
                                   version := item.version + 1, status := Modified)];
      }
    }

    /**
     Marks an existing record DELETED; the record stays in the table but
     leaves the active listing. `updated_at` is refreshed only when the
     status really changes: on a record already DELETED no UPDATE is issued
     and the record is kept as it is. A missing id changes nothing.
     */
    method DeleteItem(id: string, now: Timestamp)
      requires Valid()
      modifies this
      ensures Valid()
      ensures id in old(local) && old(local)[id].status != Deleted ==>
        local == old(local)[id := old(local)[id].(status := Deleted, updatedAt := now)]
      ensures id in old(local) && old(local)[id].status == Deleted ==> local == old(local)
      ensures id !in old(local) ==> local == old(local)
      ensures local.Keys == old(local).Keys
      ensures ActiveIds(local) == ActiveIds(old(local)) - {id}
      ensures remote == old(remote)
    {
      if id in local && local[id].status != Deleted {
        local := local[id := local[id].(status := Deleted, updatedAt := now)];
      }
    }

    /**
     The active listing: each record whose status is not DELETED, exactly
     once, as stored. The order is unspecified.
     */
    method GetItems() returns (items: seq<Item>)
      requires Valid()
      ensures Ids(items) == ActiveIds(local)
      ensures forall j | 0 <= j < |items| :: items[j].id in local && local[items[j].id] == items[j]
      ensures forall i, j | 0 <= i < j < |items| :: items[i].id != items[j].id
    {
      items := [];
      var pending := local.Keys;
      while pending != {}
        invariant pending <= local.Keys
        invariant Ids(items) == ActiveIds(local) - pending
        invariant forall j | 0 <= j < |items| :: items[j].id in local && items[j].id !in pending && local[items[j].id] == items[j]
        invariant forall i, j | 0 <= i < j < |items| :: items[i].id != items[j].id
        decreases pending
      {
        var id :| id in pending;
        if local[id].status != Deleted {
          assert Ids(items + [local[id]]) == Ids(items) + {id} by {
            assert forall j | 0 <= j < |items| :: (items + [local[id]])[j] == items[j];
            assert (items + [local[id]])[|items|] == local[id];
          }
          items := items + [local[id]];
        }
        pending := pending - {id};
      }
    }

    /**
     The body of the push loop for one listed record. A MODIFIED record is
     checked against the remote version: it becomes CONFLICT when the remote
     version is strictly greater, otherwise it is written remotely by
     insert-or-update and becomes SYNCED. A DELETED record has its remote
     row deleted. The status of `item`, a record read by the active
     listing, is assumed to take effect in the local table.
     */
    method PushItem(item: Item)
      requires Valid()
      requires item.id in local
      modifies this
      ensures Valid()
      ensures item.status == Modified && Conflicts(RemoteVersion(old(remote), item.id), item.version) ==>
        local == old(local)[item.id := item.(status := Conflict)] && remote == old(remote)
      ensures item.status == Modified && !Conflicts(RemoteVersion(old(remote), item.id), item.version) ==>
        local == old(local)[item.id := item.(status := Synced)] && remote == Upsert(old(remote), item)
      ensures item.status == Deleted ==> local == old(local) && remote == old(remote) - {item.id}
      ensures item.status in {Synced, Conflict} ==> local == old(local) && remote == old(remote)
    {
      if item.status == Modified {
        var result := RemoteVersion(remote, item.id);
        if Conflicts(result, item.version) {
          local := local[item.id := item.(status := Conflict)];
        } else {
          remote := Upsert(remote, item);
          local := local[item.id := item.(status := Synced)];
        }
      } else if item.status == Deleted {
        remote := remote - {item.id};
      }
    }

    /**
     One synchronisation. Offline, nothing changes. Online, the push phase
     walks the active listing, then the pull phase adds every remote row
     that has no local record; the outcome is `SyncedLocal` and
     `SyncedRemote` of the tables before the call.
     */
    method Sync(online: bool)
      requires Valid()
      modifies this
      ensures Valid()
      ensures !online ==> local == old(local) && remote == old(remote)
      ensures online ==> local == SyncedLocal(old(local), old(remote))
      ensures online ==> remote == SyncedRemote(old(local), old(remote))
    {
      if !online {
        return;
      }
      var items := GetItems();
      PushAll(items);
      PullMissing();
    }

    /**
     The push loop: every record of the active listing goes through
     `PushItem`. Afterwards each listed record has been reconciled against
     the remote table as it was before the loop.
     */
    method PushAll(items: seq<Item>)
      requires Valid()
      requires Ids(items) == ActiveIds(local)
      requires forall j | 0 <= j < |items| :: items[j].id in local && local[items[j].id] == items[j]
      requires forall i, j | 0 <= i < j < |items| :: items[i].id != items[j].id
      modifies this
      ensures Valid()
      ensures local == PushedLocal(old(local), old(remote), ActiveIds(old(local)))
      ensures remote == SyncedRemote(old(local), old(remote))
    {
      ghost var local0, remote0 := local, remote;
      ghost var done: set<string> := {};
      var i := 0;
      while i < |items|
        invariant 0 <= i <= |items|
        invariant Valid()
        invariant done == Ids(items[..i])
        invariant local == PushedLocal(local0, remote0, done)
        invariant remote == PushedRemote(local0, remote0, done)
      {
        var item := items[i];
        assert item.id !in done;
        assert item.id in Ids(items);
        assert item == local0[item.id] && item.status != Deleted;
        PushedLocalStep(local0, remote0, done, item.id);
        PushedRemoteStep(local0, remote0, done, item.id);
        PushItem(item);
        done := done + {item.id};
        i := i + 1;
        assert items[..i] == items[..i - 1] + [item];
      }
      assert items[..i] == items;
    }

    /**
     The pull loop: every remote row whose id has no local record is added
     locally as SYNCED; present records are never overwritten, whatever
     their status, and the remote table is only read.
     */
    method PullMissing()
      requires Valid()
      modifies this
      ensures Valid()
      ensures local == Pull(old(local), old(remote))
      ensures remote == old(remote)
    {
      ghost var local0 := local;
      var pending := remote.Keys;
      while pending != {}
        invariant remote == old(remote)
        invariant pending <= remote.Keys
        invariant Valid()
        invariant local == Pull(local0, remote - pending)
        decreases pending
      {
        var id :| id in pending;
        PullStep(local0, remote, pending, id);
        if id !in local {
          local := local[id := FromRemote(remote[id])];
        }
        pending := pending - {id};
      }
      assert remote - pending == remote;
    }

    /**
     Applies a choice to a record in CONFLICT: "local" marks it MODIFIED
     again (its `updated_at` is refreshed) so that the next sync retries
     the push; "remote", and any other choice, leaves it unchanged. A
     missing record, or one not in CONFLICT, is left unchanged too.
     */
    method ResolveConflict(id: string, choice: string, now: Timestamp)
      requires Valid()
      modifies this
      ensures Valid()
      ensures id in old(local) && old(local)[id].status == Conflict && choice == "local" ==>
        local == old(local)[id := old(local)[id].(status := Modified, updatedAt := now)]
      ensures !(id in old(local) && old(local)[id].status == Conflict && choice == "local") ==>
        local == old(local)
      ensures remote == old(remote)
    {
      if id in local && local[id].status == Conflict {
        if choice == "local" {
          local := local[id := local[id].(status := Modified, updatedAt := now)];
        } else if choice == "remote" {
          // The remote-wins path is not implemented: the record is kept as it is.
        }
      }
    }
  }

  /**
   A client run: add a record and sync into an empty remote table; edit it
   while another writer moves the remote row to version 5; the next sync
   flags the record CONFLICT and leaves the remote row at version 5.
   */
  method ConflictScenario(id: string, now: Timestamp, later: Timestamp)
  {
    var db := new Database(map[], map[]);
    db.AddItem(id, "A", "d1", now);
    ghost var added := db.local;
    db.Sync(true);
    SyncPushesRecord(added, map[], id);
    assert db.local[id].status == Synced && db.remote[id].version == 1;

    db.UpdateItem(id, "A2", "d2", later);
    assert db.local[id].version == 2;
    db.remote := db.remote[id := db.remote[id].(version := 5)];
    ghost var edited, bumped := db.local, db.remote;
    db.Sync(true);
    SyncFlagsConflict(edited, bumped, id);
    assert db.local[id].status == Conflict;
    assert db.remote[id].version == 5 && db.remote[id].name == "A";
  }
}
