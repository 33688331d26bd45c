/** The synchronisation script as it runs against the local store: the
    tables are fields the three async functions update step by step, and
    every method is proved to leave the store in the state the functions of
    `KeyReconciler` and `ServerSync` describe. */
module OutlineStore {
  import opened Definitions
  import opened Metrics
  import opened KeyReconciler
  import opened KeyProperties
  import opened ServerSync

  /** The local database: the `Server` and `AccessKey` tables, in the order
      `findMany` returns them, and the access key table's autoincrement. */
  class Store {
    var servers: seq<Server>
    var accessKeys: seq<AccessKey>
    var nextAccessKeyId: nat

    ghost function State(): (state: Db)
      reads this
    {
      Db(servers, accessKeys, nextAccessKeyId)
    }

    ghost predicate Valid()
      reads this
    {
      ValidDb(State())
    }

    constructor (servers: seq<Server>, accessKeys: seq<AccessKey>, nextAccessKeyId: nat)
      requires ValidDb(Db(servers, accessKeys, nextAccessKeyId))
      ensures State() == Db(servers, accessKeys, nextAccessKeyId)
      ensures Valid()
    {
      this.servers := servers;
      this.accessKeys := accessKeys;
      this.nextAccessKeyId := nextAccessKeyId;
    }

    /** The loop over the remote keys (lines 43-85): each one either
        patches the loaded row whose `apiId` is its id or creates a row. */
    method UpdateOrCreateKeys(local: seq<AccessKey>, serverId: nat, remote: seq<RemoteAccessKey>,
                              metrics: TransferMetrics, convert: Converter)
      modifies this
      ensures State() == UpdateCreatePass(old(State()), local, serverId, remote, metrics, convert)
    {
      var i := 0;
      while i < |remote|
        invariant 0 <= i <= |remote|
        invariant State() == UpdateCreatePass(old(State()), local, serverId, remote[..i], metrics, convert)
      {
        var r := remote[i];
        var found := FindByApiId(local, r.id);
        var unit := if found.Some? then found.value.dataLimitUnit else Bytes;
        var dataLimit := LimitFor(r.dataLimitInBytes, unit, convert);
        if found.Some? {
          accessKeys := UpdateById(accessKeys, found.value.id, KeyPatch(r.name, dataLimit, UsageOf(metrics, r.id)));
        } else {
          accessKeys := accessKeys + [NewAccessKey(nextAccessKeyId, serverId, r, dataLimit)];
          nextAccessKeyId := nextAccessKeyId + 1;
        }
        assert remote[..i + 1][..i] == remote[..i];
        i := i + 1;
      }
      assert remote[..i] == remote;
    }

    /** `syncAccessKeys(client, metrics, serverId)` (lines 32-113): load the
        server's rows, list the remote keys, update or create one row per
        remote key, then delete the loaded rows no remote key matches. */
    method SyncAccessKeys(keys: Result<seq<RemoteAccessKey>>, metrics: TransferMetrics, serverId: nat,
                          convert: Converter) returns (outcome: Outcome)
      requires Valid()
      modifies this
      ensures Step(outcome, State()) == AccessKeysSynced(old(State()), keys, serverId, metrics, convert)
      ensures Valid()
    {
      var local := OfServer(accessKeys, serverId);
      if keys.Err? {
        return Failed(keys.error);
      }
      var remote := keys.value;
      ghost var start := State();
      UpdateOrCreateKeys(local, serverId, remote, metrics, convert);
      var toRemove := CollectKeysToRemove(local, remote);
      if |toRemove| > 0 {
        accessKeys := RemoveIds(accessKeys, toRemove);
      }
      SyncedKeepsValid(start, serverId, remote, metrics, convert);
      outcome := Done;
    }

    /** `syncServer(client, server)` (lines 7-30): read the descriptor and
        the metrics, sum the usage, write the server row, then sync its keys. */
    method SyncServer(client: ApiClient, serverId: nat, convert: Converter) returns (outcome: Outcome)
      requires Valid()
      modifies this
      ensures Step(outcome, State()) == ServerSynced(old(State()), client, serverId, convert)
      ensures Valid()
    {
      if client.server.Err? {
        return Failed(client.server.error);
      }
      var info := client.server.value;
      if client.metricsTransfer.Err? {
        return Failed(client.metricsTransfer.error);
      }
      var metrics := client.metricsTransfer.value;
      var total := TotalUsage(metrics.bytesTransferredByUserId);
      if !HasServer(servers, serverId) {
        return Failed(RecordNotFound);
      }
      servers := ServerUpdated(servers, serverId, info, total);
      outcome := SyncAccessKeys(client.keys, metrics, serverId, convert);
    }

    /** `run()` (lines 115-127): load every server row, then sync the
        servers one after the other; the first rejection ends the run. */
    method Run(connect: ClientFactory, convert: Converter) returns (outcome: Outcome)
      requires Valid()
      modifies this
      ensures Step(outcome, State()) == FleetSynced(old(State()), old(servers), connect, convert)
      ensures Valid()
    {
      var loaded := servers;
      var i := 0;
      while i < |loaded|
        invariant 0 <= i <= |loaded|
        invariant Valid()
        invariant FleetSynced(State(), loaded[i..], connect, convert) == FleetSynced(old(State()), loaded, connect, convert)
      {
        assert loaded[i..][0] == loaded[i];
        assert loaded[i..][1..] == loaded[i + 1..];
        var client := connect(loaded[i].managementJson);
        if client.Err? {
          return Failed(client.error);
        }
        var result := SyncServer(client.value, loaded[i].id, convert);
        if result.Failed? {
          return result;
        }
        i := i + 1;
      }
      outcome := Done;
    }
  }

  /** `localAccessKeysToRemove` (lines 89-98): the ids of the loaded rows
      whose `apiId` no remote key carries, in load order. */
  method CollectKeysToRemove(local: seq<AccessKey>, remote: seq<RemoteAccessKey>) returns (toRemove: seq<nat>)
    ensures toRemove == KeysToRemove(local, remote)
  {
    toRemove := [];
    var j := 0;
    while j < |local|
      invariant 0 <= j <= |local|
      invariant toRemove == KeysToRemove(local[..j], remote)
    {
      if !HasRemoteId(remote, local[j].apiId) {
        toRemove := toRemove + [local[j].id];
      }
      assert local[..j + 1][..j] == local[..j];
      j := j + 1;
    }
    assert local[..j] == local;
  }
}
