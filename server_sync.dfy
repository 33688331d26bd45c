/** `syncServer` and `run` as functions of the store's contents: one server's
    descriptor and usage total are written, then its access keys are
    reconciled; the fleet is synced server by server until the first failure. */
module ServerSync {
  import opened Definitions
  import opened Metrics
  import opened KeyReconciler
  import opened KeyProperties

  /** Is there a row with id `id` (`prisma.server.update` throws otherwise)? */
  predicate HasServer(servers: seq<Server>, id: nat)
  {
    exists i :: 0 <= i < |servers| && servers[i].id == id
  }

  /** `prisma.server.update` of lines 18-27: the five columns taken from the
      remote descriptor and the usage total, on the row with id `id`. */
  function ServerUpdated(servers: seq<Server>, id: nat, info: ServerInfo, total: nat): (updated: seq<Server>)
  {
    seq(|servers|, i requires 0 <= i < |servers| =>
      if servers[i].id == id then
        servers[i].(name := info.name,
                    hostnameForNewAccessKeys := info.hostnameForAccessKeys,
                    portForNewAccessKeys := info.portForNewAccessKeys,
                    isMetricsEnabled := info.metricsEnabled,
                    totalDataUsage := total)
      else servers[i])
  }

  /** `b` is `a` with at most the five synced columns rewritten. */
  predicate SameServerIdentity(a: Server, b: Server)
  {
    && a.id == b.id && a.apiId == b.apiId && a.hostnameOrIp == b.hostnameOrIp
    && a.isAvailable == b.isAvailable && a.version == b.version && a.apiUrl == b.apiUrl
    && a.managementJson == b.managementJson && a.apiCreatedAt == b.apiCreatedAt
  }

  /** `syncServer(client, server)` (lines 7-30) on a store holding `db`:
      the descriptor and the metrics are read first, and either failing
      rejects before anything is written; then the server row is written;
      then the access keys are synced, so a failing key listing leaves the
      server row written. */
  ghost function ServerSynced(db: Db, client: ApiClient, serverId: nat, convert: Converter): (step: Step)
  {
    match client.server
    case Err(e) => Step(Failed(e), db)
    case Ok(info) =>
      match client.metricsTransfer
      case Err(e) => Step(Failed(e), db)
      case Ok(metrics) =>
        if !HasServer(db.servers, serverId) then Step(Failed(RecordNotFound), db)
        else
          var written := db.(servers := ServerUpdated(db.servers, serverId, info, MapSum(metrics.bytesTransferredByUserId)));
          AccessKeysSynced(written, client.keys, serverId, metrics, convert)
  }

  /** The loop of `run` (lines 120-126) over the server rows `pending` loaded
      before it started: each row's client is built from its management JSON
      and the server is synced; the first failure rejects the whole run. */
  ghost function FleetSynced(db: Db, pending: seq<Server>, connect: ClientFactory, convert: Converter): (step: Step)
    decreases |pending|
  {
    if pending == [] then Step(Done, db)
    else
      match connect(pending[0].managementJson)
      case Err(e) => Step(Failed(e), db)
      case Ok(client) =>
        var step := ServerSynced(db, client, pending[0].id, convert);
        if step.outcome.Failed? then step else FleetSynced(step.db, pending[1..], connect, convert)
  }

  /** The server write touches only the five synced columns, only on the
      row with the given id, and keeps the rows in place. */
  lemma ServerUpdatedFrame(servers: seq<Server>, id: nat, info: ServerInfo, total: nat)
    ensures var after := ServerUpdated(servers, id, info, total);
      && |after| == |servers|
      && (forall i :: 0 <= i < |servers| ==> SameServerIdentity(servers[i], after[i]))
      && (forall i :: 0 <= i < |servers| && servers[i].id != id ==> after[i] == servers[i])
      && (forall i :: 0 <= i < |servers| && servers[i].id == id ==>
            && after[i].name == info.name
            && after[i].hostnameForNewAccessKeys == info.hostnameForAccessKeys
            && after[i].portForNewAccessKeys == info.portForNewAccessKeys
            && after[i].isMetricsEnabled == info.metricsEnabled
            && after[i].totalDataUsage == total)
  {
  }

  /** A failing descriptor or metrics read rejects with its error and writes nothing. */
  lemma FetchFailureWritesNothing(db: Db, client: ApiClient, serverId: nat, convert: Converter)
    requires client.server.Err? || client.metricsTransfer.Err?
    ensures var step := ServerSynced(db, client, serverId, convert);
      step.db == db &&
      step.outcome == Failed(if client.server.Err? then client.server.error else client.metricsTransfer.error)
  {
  }

  /** A failing key listing rejects after the server row was written: the
      write is not rolled back, and no access key row is touched. */
  lemma KeyListingFailureKeepsServerWrite(db: Db, client: ApiClient, serverId: nat, convert: Converter)
    requires client.server.Ok? && client.metricsTransfer.Ok? && client.keys.Err?
    requires HasServer(db.servers, serverId)
    ensures var step := ServerSynced(db, client, serverId, convert);
      && step.outcome == Failed(client.keys.error)
      && step.db.accessKeys == db.accessKeys
      && step.db.nextAccessKeyId == db.nextAccessKeyId
      && step.db.servers ==
           ServerUpdated(db.servers, serverId, client.server.value,
                         MapSum(client.metricsTransfer.value.bytesTransferredByUserId))
  {
  }

  /** Once every read succeeds, the server row carries the remote descriptor
      and the usage total, which bounds every key's usage; the rest of the row
      is kept, and the server's keys converge on the remote ids. */
  lemma ServerSyncedSuccess(db: Db, client: ApiClient, serverId: nat, convert: Converter, i: nat)
    requires ValidDb(db)
    requires client.server.Ok? && client.metricsTransfer.Ok? && client.keys.Ok?
    requires i < |db.servers| && db.servers[i].id == serverId
    ensures var step := ServerSynced(db, client, serverId, convert);
      var info := client.server.value;
      var usage := client.metricsTransfer.value.bytesTransferredByUserId;
      && step.outcome == Done
      && ValidDb(step.db)
      && |step.db.servers| == |db.servers|
      && SameServerIdentity(db.servers[i], step.db.servers[i])
      && step.db.servers[i].name == info.name
      && step.db.servers[i].hostnameForNewAccessKeys == info.hostnameForAccessKeys
      && step.db.servers[i].portForNewAccessKeys == info.portForNewAccessKeys
      && step.db.servers[i].isMetricsEnabled == info.metricsEnabled
      && step.db.servers[i].totalDataUsage == MapSum(usage)
      && (forall k :: k in usage ==> usage[k] <= step.db.servers[i].totalDataUsage)
      && ApiIdsOf(step.db.accessKeys, serverId) == RemoteApiIds(client.keys.value)
  {
    var info := client.server.value;
    var metrics := client.metricsTransfer.value;
    var total := MapSum(metrics.bytesTransferredByUserId);
    var written := db.(servers := ServerUpdated(db.servers, serverId, info, total));
    var remote := client.keys.value;
    assert HasServer(db.servers, serverId);
    assert ServerSynced(db, client, serverId, convert) == Step(Done, SyncedAccessKeys(written, serverId, remote, metrics, convert));
    UpdateCreatePassKeepsServers(written, OfServer(written.accessKeys, serverId), serverId, remote, metrics, convert);
    SyncedKeepsValid(written, serverId, remote, metrics, convert);
    ApiIdsConverge(written, serverId, remote, metrics, convert);
    ServerUpdatedFrame(db.servers, serverId, info, total);
    forall k | k in metrics.bytesTransferredByUserId
      ensures metrics.bytesTransferredByUserId[k] <= MapSum(metrics.bytesTransferredByUserId)
    {
      MapSumBound(metrics.bytesTransferredByUserId, k);
    }
  }

  /** Syncing one server keeps the store's invariant, whatever the outcome. */
  lemma ServerSyncedKeepsValid(db: Db, client: ApiClient, serverId: nat, convert: Converter)
    requires ValidDb(db)
    ensures ValidDb(ServerSynced(db, client, serverId, convert).db)
  {
    if client.server.Ok? && client.metricsTransfer.Ok? && client.keys.Ok? && HasServer(db.servers, serverId) {
      var metrics := client.metricsTransfer.value;
      var written := db.(servers := ServerUpdated(db.servers, serverId, client.server.value,
                                                  MapSum(metrics.bytesTransferredByUserId)));
      SyncedKeepsValid(written, serverId, client.keys.value, metrics, convert);
    }
  }

  /** Syncing one server rewrites at most the five synced columns of server rows. */
  lemma ServerSyncedKeepsServerIdentities(db: Db, client: ApiClient, serverId: nat, convert: Converter)
    ensures var after := ServerSynced(db, client, serverId, convert).db.servers;
      |after| == |db.servers| && forall i :: 0 <= i < |db.servers| ==> SameServerIdentity(db.servers[i], after[i])
  {
    if client.server.Ok? && client.metricsTransfer.Ok? && client.keys.Ok? && HasServer(db.servers, serverId) {
      var metrics := client.metricsTransfer.value;
      var written := db.(servers := ServerUpdated(db.servers, serverId, client.server.value,
                                                  MapSum(metrics.bytesTransferredByUserId)));
      var remote := client.keys.value;
      assert ServerSynced(db, client, serverId, convert).db == SyncedAccessKeys(written, serverId, remote, metrics, convert);
      UpdateCreatePassKeepsServers(written, OfServer(written.accessKeys, serverId), serverId, remote, metrics, convert);
      ServerUpdatedFrame(db.servers, serverId, client.server.value, MapSum(metrics.bytesTransferredByUserId));
    }
  }

  /** A run over `p + q` is a run over `p` followed, when that one did not
      fail, by a run over `q` from the store it left. */
  lemma {:induction false} FleetAppend(db: Db, p: seq<Server>, q: seq<Server>, connect: ClientFactory, convert: Converter)
    ensures var first := FleetSynced(db, p, connect, convert);
      FleetSynced(db, p + q, connect, convert) ==
        if first.outcome.Failed? then first else FleetSynced(first.db, q, connect, convert)
    decreases |p|
  {
    if p == [] {
      assert p + q == q;
    } else {
      assert (p + q)[0] == p[0];
      assert (p + q)[1..] == p[1..] + q;
      match connect(p[0].managementJson)
      case Err(e) =>
      case Ok(client) =>
        var step := ServerSynced(db, client, p[0].id, convert);
        if step.outcome.Done? {
          FleetAppend(step.db, p[1..], q, connect, convert);
        }
    }
  }

  /** No per-server isolation: when server `s` fails (its client cannot be
      built, or its sync rejects) after the servers `p` before it succeeded,
      the run rejects with that error, keeps the writes made so far, and the
      servers `q` after it are never synced. */
  lemma FirstFailureAbortsRun(db: Db, p: seq<Server>, s: Server, q: seq<Server>, connect: ClientFactory, convert: Converter)
    requires FleetSynced(db, p, connect, convert).outcome == Done
    requires FleetSynced(FleetSynced(db, p, connect, convert).db, [s], connect, convert).outcome.Failed?
    ensures var before := FleetSynced(db, p, connect, convert).db;
      FleetSynced(db, p + [s] + q, connect, convert) == FleetSynced(before, [s], connect, convert)
  {
    var before := FleetSynced(db, p, connect, convert).db;
    FleetAppend(db, p, [s], connect, convert);
    FleetAppend(db, p + [s], q, connect, convert);
  }

  /** A run keeps the store's invariant, whatever its outcome. */
  lemma {:induction false} FleetKeepsValid(db: Db, pending: seq<Server>, connect: ClientFactory, convert: Converter)
    requires ValidDb(db)
    ensures ValidDb(FleetSynced(db, pending, connect, convert).db)
    decreases |pending|
  {
    if pending != [] {
      match connect(pending[0].managementJson)
      case Err(e) =>
      case Ok(client) =>
        ServerSyncedKeepsValid(db, client, pending[0].id, convert);
        var step := ServerSynced(db, client, pending[0].id, convert);
        if step.outcome.Done? {
          FleetKeepsValid(step.db, pending[1..], connect, convert);
        }
    }
  }

  /** A run neither adds, removes nor reorders server rows, and rewrites
      only their five synced columns. */
  lemma {:induction false} FleetKeepsServerIdentities(db: Db, pending: seq<Server>, connect: ClientFactory, convert: Converter)
    ensures var after := FleetSynced(db, pending, connect, convert).db.servers;
      |after| == |db.servers| && forall i :: 0 <= i < |db.servers| ==> SameServerIdentity(db.servers[i], after[i])
    decreases |pending|
  {
    if pending != [] {
      match connect(pending[0].managementJson)
      case Err(e) =>
      case Ok(client) =>
        ServerSyncedKeepsServerIdentities(db, client, pending[0].id, convert);
        var step := ServerSynced(db, client, pending[0].id, convert);
        if step.outcome.Done? {
          FleetKeepsServerIdentities(step.db, pending[1..], connect, convert);
        }
    }
  }
}
