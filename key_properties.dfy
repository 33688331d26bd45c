/** What `syncAccessKeys` guarantees about the access key table: which rows
    it creates, patches and deletes, which fields it never writes, and that
    the server's keys converge on the remote key list. */
module KeyProperties {
  import opened Definitions
  import opened KeyReconciler

  /** `b` is `a` with at most `name`, `dataLimit` and `dataUsage` rewritten:
      the row's identity, its connection fields and its locally-owned
      fields (`prefix`, `expiresAt`, `dataLimitUnit`) are the same. */
  predicate SameIdentity(a: AccessKey, b: AccessKey)
  {
    && a.id == b.id && a.serverId == b.serverId && a.apiId == b.apiId
    && a.prefix == b.prefix && a.expiresAt == b.expiresAt && a.dataLimitUnit == b.dataLimitUnit
    && a.accessUrl == b.accessUrl && a.cipherMethod == b.cipherMethod
    && a.password == b.password && a.port == b.port
  }

  /** The remote ids, as the `apiId` values that match them. */
  ghost function RemoteApiIds(remote: seq<RemoteAccessKey>): (ids: set<Option<string>>)
  {
    set r | r in remote :: Some(r.id)
  }

  /** The `apiId` values among the rows of one server. */
  ghost function ApiIdsOf(rows: seq<AccessKey>, serverId: nat): (ids: set<Option<string>>)
  {
    set k | k in rows && k.serverId == serverId :: k.apiId
  }

  /** The remote key list names every key at most once. */
  ghost predicate DistinctRemoteIds(remote: seq<RemoteAccessKey>)
  {
    forall i, j :: 0 <= i < j < |remote| ==> remote[i].id != remote[j].id
  }

  /** The `j`-th row the update/create pass creates, for the unmatched
      remote keys `u`: numbered from the table's next id, its limit
      converted into `Bytes`. */
  function CreatedRow(db: Db, serverId: nat, u: seq<RemoteAccessKey>, j: nat, convert: Converter): (created: AccessKey)
    requires j < |u|
  {
    NewAccessKey(db.nextAccessKeyId + j, serverId, u[j], LimitFor(u[j].dataLimitInBytes, Bytes, convert))
  }

  /** The update pass rewrites nothing but `name`, `dataLimit` and `dataUsage`. */
  lemma {:induction false} PatchedByPassKeepsIdentity(k: AccessKey, local: seq<AccessKey>, remote: seq<RemoteAccessKey>,
                                                      metrics: TransferMetrics, convert: Converter)
    ensures SameIdentity(k, PatchedByPass(k, local, remote, metrics, convert))
    decreases |remote|
  {
    if remote != [] {
      PatchedByPassKeepsIdentity(k, local, remote[..|remote| - 1], metrics, convert);
    }
  }

  /** A row that no remote key's `find` lands on is left exactly as it was. */
  lemma {:induction false} PatchedByPassMiss(k: AccessKey, local: seq<AccessKey>, remote: seq<RemoteAccessKey>,
                                             metrics: TransferMetrics, convert: Converter)
    requires forall i :: 0 <= i < |remote| ==>
      FindByApiId(local, remote[i].id).None? || FindByApiId(local, remote[i].id).value.id != k.id
    ensures PatchedByPass(k, local, remote, metrics, convert) == k
    decreases |remote|
  {
    if remote != [] {
      var init := remote[..|remote| - 1];
      assert forall i :: 0 <= i < |init| ==> init[i] == remote[i];
      PatchedByPassMiss(k, local, init, metrics, convert);
    }
  }

  /** With distinct remote ids, the row `find` returns for remote key `n` is
      patched by that key alone: its name and limit come from it, the limit
      converted with the row's own unit. */
  lemma {:induction false} PatchedByPassHit(k: AccessKey, local: seq<AccessKey>, remote: seq<RemoteAccessKey>, n: nat,
                                            metrics: TransferMetrics, convert: Converter)
    requires UniqueIds(local)
    requires DistinctRemoteIds(remote)
    requires n < |remote| && FindByApiId(local, remote[n].id) == Some(k)
    ensures PatchedByPass(k, local, remote, metrics, convert) == Patched(k, PatchFor(remote[n], k.dataLimitUnit, metrics, convert))
    decreases |remote|
  {
    var init := remote[..|remote| - 1];
    var last := remote[|remote| - 1];
    assert forall i :: 0 <= i < |init| ==> init[i] == remote[i];
    if n == |remote| - 1 {
      forall i | 0 <= i < |init|
        ensures FindByApiId(local, init[i].id).None? || FindByApiId(local, init[i].id).value.id != k.id
      {
        assert init[i] == remote[i];
      }
      PatchedByPassMiss(k, local, init, metrics, convert);
    } else {
      PatchedByPassHit(k, local, init, n, metrics, convert);
      assert last.id != remote[n].id;
    }
  }

  /** The update/create pass keeps the rows in place, patching each as
      `PatchedByPass` says, and appends one new row per unmatched remote key,
      in remote order, numbered from the table's next id. */
  lemma {:induction false} UpdateCreatePassShape(db: Db, local: seq<AccessKey>, serverId: nat, remote: seq<RemoteAccessKey>,
                                                 metrics: TransferMetrics, convert: Converter)
    requires forall x :: x in local ==> x.id < db.nextAccessKeyId
    ensures var d := UpdateCreatePass(db, local, serverId, remote, metrics, convert);
      var u := Unmatched(local, remote);
      && d.servers == db.servers
      && |d.accessKeys| == |db.accessKeys| + |u|
      && d.nextAccessKeyId == db.nextAccessKeyId + |u|
      && (forall i :: 0 <= i < |db.accessKeys| ==>
            d.accessKeys[i] == PatchedByPass(db.accessKeys[i], local, remote, metrics, convert))
      && (forall p :: |db.accessKeys| <= p < |d.accessKeys| ==>
            d.accessKeys[p] == CreatedRow(db, serverId, u, p - |db.accessKeys|, convert))
    decreases |remote|
  {
    if remote != [] {
      var init := remote[..|remote| - 1];
      var r := remote[|remote| - 1];
      UpdateCreatePassShape(db, local, serverId, init, metrics, convert);
      var before := UpdateCreatePass(db, local, serverId, init, metrics, convert);
      var u0 := Unmatched(local, init);
      var n := |db.accessKeys|;
      var found := FindByApiId(local, r.id);
      if found.Some? {
        var x := found.value;
        assert x in local;
        var after := UpdateById(before.accessKeys, x.id, PatchFor(r, x.dataLimitUnit, metrics, convert));
        assert Unmatched(local, remote) == u0;
        forall i | 0 <= i < n
          ensures after[i] == PatchedByPass(db.accessKeys[i], local, remote, metrics, convert)
        {
          PatchedByPassKeepsIdentity(db.accessKeys[i], local, init, metrics, convert);
        }
        forall p | n <= p < |before.accessKeys|
          ensures after[p] == before.accessKeys[p]
        {
          assert before.accessKeys[p].id == db.nextAccessKeyId + (p - n);
        }
      } else {
        assert Unmatched(local, remote) == u0 + [r];
      }
    }
  }

  /** The update/create pass writes no server row. */
  lemma {:induction false} UpdateCreatePassKeepsServers(db: Db, local: seq<AccessKey>, serverId: nat,
                                                        remote: seq<RemoteAccessKey>, metrics: TransferMetrics,
                                                        convert: Converter)
    ensures UpdateCreatePass(db, local, serverId, remote, metrics, convert).servers == db.servers
    decreases |remote|
  {
    if remote != [] {
      UpdateCreatePassKeepsServers(db, local, serverId, remote[..|remote| - 1], metrics, convert);
    }
  }

  /** A loaded row survives the delete pass unless it belongs to the synced
      server and its `apiId` matches no remote key. */
  predicate Kept(x: AccessKey, serverId: nat, remote: seq<RemoteAccessKey>)
  {
    x.serverId != serverId || HasRemoteId(remote, x.apiId)
  }

  /** Under the table's invariant, an id among those to remove belongs to a
      loaded row that matches no remote key, and to no other row. */
  lemma RemovedIdOwner(db: Db, serverId: nat, remote: seq<RemoteAccessKey>, x: AccessKey)
    requires ValidDb(db) && x in db.accessKeys
    ensures x.id in KeysToRemove(OfServer(db.accessKeys, serverId), remote) <==> !Kept(x, serverId, remote)
  {
    var local := OfServer(db.accessKeys, serverId);
    if x.id in KeysToRemove(local, remote) {
      var k :| k in local && k.id == x.id && !HasRemoteId(remote, k.apiId);
      assert k == x;
    }
  }

  /** `syncAccessKeys` keeps the rows of its update/create pass whose id is
      not among those collected for removal. */
  lemma SyncedMembership(db: Db, serverId: nat, remote: seq<RemoteAccessKey>,
                         metrics: TransferMetrics, convert: Converter)
    ensures var local := OfServer(db.accessKeys, serverId);
      var pass := UpdateCreatePass(db, local, serverId, remote, metrics, convert);
      var result := SyncedAccessKeys(db, serverId, remote, metrics, convert);
      && result.servers == pass.servers && result.nextAccessKeyId == pass.nextAccessKeyId
      && forall k :: k in result.accessKeys <==> k in pass.accessKeys && k.id !in KeysToRemove(local, remote)
  {
  }

  /** What the rows `rows` left by `syncAccessKeys` are: each old row,
      patched, exactly when it is kept, every created row, and nothing else. */
  ghost predicate RowsAfterSync(db: Db, serverId: nat, remote: seq<RemoteAccessKey>, metrics: TransferMetrics,
                                convert: Converter, local: seq<AccessKey>, u: seq<RemoteAccessKey>, rows: seq<AccessKey>)
  {
    && (forall i :: 0 <= i < |db.accessKeys| ==>
          (PatchedByPass(db.accessKeys[i], local, remote, metrics, convert) in rows <==>
           Kept(db.accessKeys[i], serverId, remote)))
    && (forall j :: 0 <= j < |u| ==> CreatedRow(db, serverId, u, j, convert) in rows)
    && (forall y :: y in rows ==>
          || (exists i :: 0 <= i < |db.accessKeys| && Kept(db.accessKeys[i], serverId, remote) &&
                y == PatchedByPass(db.accessKeys[i], local, remote, metrics, convert))
          || (exists j :: 0 <= j < |u| && y == CreatedRow(db, serverId, u, j, convert)))
  }

  /** The rows after `syncAccessKeys`, and its new autoincrement value. */
  lemma SyncedRows(db: Db, serverId: nat, remote: seq<RemoteAccessKey>,
                   metrics: TransferMetrics, convert: Converter)
    requires ValidDb(db)
    ensures var local := OfServer(db.accessKeys, serverId);
      var u := Unmatched(local, remote);
      var result := SyncedAccessKeys(db, serverId, remote, metrics, convert);
      && result.servers == db.servers
      && result.nextAccessKeyId == db.nextAccessKeyId + |u|
      && RowsAfterSync(db, serverId, remote, metrics, convert, local, u, result.accessKeys)
  {
    var local := OfServer(db.accessKeys, serverId);
    var u := Unmatched(local, remote);
    var pass := UpdateCreatePass(db, local, serverId, remote, metrics, convert);
    var ids := KeysToRemove(local, remote);
    var result := SyncedAccessKeys(db, serverId, remote, metrics, convert);
    UpdateCreatePassShape(db, local, serverId, remote, metrics, convert);
    SyncedMembership(db, serverId, remote, metrics, convert);
    KeptRowsSurvive(db, serverId, remote, metrics, convert, local, pass, ids, result.accessKeys);
    CreatedRowsSurvive(db, serverId, remote, metrics, convert, local, u, pass, ids, result.accessKeys);
    SurvivorsOrigin(db, serverId, remote, metrics, convert, local, u, pass, ids, result.accessKeys);
  }

  lemma KeptRowsSurvive(db: Db, serverId: nat, remote: seq<RemoteAccessKey>, metrics: TransferMetrics, convert: Converter,
                        local: seq<AccessKey>, pass: Db, ids: seq<nat>, rows: seq<AccessKey>)
    requires ValidDb(db) && local == OfServer(db.accessKeys, serverId) && ids == KeysToRemove(local, remote)
    requires |pass.accessKeys| >= |db.accessKeys|
    requires forall i :: 0 <= i < |db.accessKeys| ==>
      pass.accessKeys[i] == PatchedByPass(db.accessKeys[i], local, remote, metrics, convert)
    requires forall k :: k in rows <==> k in pass.accessKeys && k.id !in ids
    ensures forall i :: 0 <= i < |db.accessKeys| ==>
      (PatchedByPass(db.accessKeys[i], local, remote, metrics, convert) in rows <==> Kept(db.accessKeys[i], serverId, remote))
  {
    forall i | 0 <= i < |db.accessKeys|
      ensures PatchedByPass(db.accessKeys[i], local, remote, metrics, convert) in rows <==>
              Kept(db.accessKeys[i], serverId, remote)
    {
      PatchedByPassKeepsIdentity(db.accessKeys[i], local, remote, metrics, convert);
      RemovedIdOwner(db, serverId, remote, db.accessKeys[i]);
      assert pass.accessKeys[i] in pass.accessKeys;
    }
  }

  lemma CreatedRowsSurvive(db: Db, serverId: nat, remote: seq<RemoteAccessKey>, metrics: TransferMetrics, convert: Converter,
                           local: seq<AccessKey>, u: seq<RemoteAccessKey>, pass: Db, ids: seq<nat>, rows: seq<AccessKey>)
    requires ValidDb(db) && local == OfServer(db.accessKeys, serverId) && ids == KeysToRemove(local, remote)
    requires |pass.accessKeys| == |db.accessKeys| + |u|
    requires forall p :: |db.accessKeys| <= p < |pass.accessKeys| ==>
      pass.accessKeys[p] == CreatedRow(db, serverId, u, p - |db.accessKeys|, convert)
    requires forall k :: k in rows <==> k in pass.accessKeys && k.id !in ids
    ensures forall j :: 0 <= j < |u| ==> CreatedRow(db, serverId, u, j, convert) in rows
  {
    forall j | 0 <= j < |u| ensures CreatedRow(db, serverId, u, j, convert) in rows {
      var y := pass.accessKeys[|db.accessKeys| + j];
      assert y == CreatedRow(db, serverId, u, j, convert);
      assert y.id !in ids;
    }
  }

  lemma SurvivorsOrigin(db: Db, serverId: nat, remote: seq<RemoteAccessKey>, metrics: TransferMetrics, convert: Converter,
                        local: seq<AccessKey>, u: seq<RemoteAccessKey>, pass: Db, ids: seq<nat>, rows: seq<AccessKey>)
    requires ValidDb(db) && local == OfServer(db.accessKeys, serverId) && ids == KeysToRemove(local, remote)
    requires |pass.accessKeys| == |db.accessKeys| + |u|
    requires forall i :: 0 <= i < |db.accessKeys| ==>
      pass.accessKeys[i] == PatchedByPass(db.accessKeys[i], local, remote, metrics, convert)
    requires forall p :: |db.accessKeys| <= p < |pass.accessKeys| ==>
      pass.accessKeys[p] == CreatedRow(db, serverId, u, p - |db.accessKeys|, convert)
    requires forall k :: k in rows <==> k in pass.accessKeys && k.id !in ids
    ensures forall y :: y in rows ==>
      || (exists i :: 0 <= i < |db.accessKeys| && Kept(db.accessKeys[i], serverId, remote) &&
            y == PatchedByPass(db.accessKeys[i], local, remote, metrics, convert))
      || (exists j :: 0 <= j < |u| && y == CreatedRow(db, serverId, u, j, convert))
  {
    forall y | y in rows
      ensures || (exists i :: 0 <= i < |db.accessKeys| && Kept(db.accessKeys[i], serverId, remote) &&
                    y == PatchedByPass(db.accessKeys[i], local, remote, metrics, convert))
              || (exists j :: 0 <= j < |u| && y == CreatedRow(db, serverId, u, j, convert))
    {
      var p :| 0 <= p < |pass.accessKeys| && pass.accessKeys[p] == y;
      SurvivorOrigin(db, serverId, remote, metrics, convert, local, u, pass, ids, p);
    }
  }

  lemma SurvivorOrigin(db: Db, serverId: nat, remote: seq<RemoteAccessKey>, metrics: TransferMetrics, convert: Converter,
                       local: seq<AccessKey>, u: seq<RemoteAccessKey>, pass: Db, ids: seq<nat>, p: nat)
    requires ValidDb(db) && local == OfServer(db.accessKeys, serverId) && ids == KeysToRemove(local, remote)
    requires |pass.accessKeys| == |db.accessKeys| + |u|
    requires p < |db.accessKeys| ==>
      pass.accessKeys[p] == PatchedByPass(db.accessKeys[p], local, remote, metrics, convert)
    requires |db.accessKeys| <= p < |pass.accessKeys| ==>
      pass.accessKeys[p] == CreatedRow(db, serverId, u, p - |db.accessKeys|, convert)
    requires p < |pass.accessKeys| && pass.accessKeys[p].id !in ids
    ensures || (p < |db.accessKeys| && Kept(db.accessKeys[p], serverId, remote))
            || (exists j :: 0 <= j < |u| && pass.accessKeys[p] == CreatedRow(db, serverId, u, j, convert))
  {
    var n := |db.accessKeys|;
    if p < n {
      PatchedByPassKeepsIdentity(db.accessKeys[p], local, remote, metrics, convert);
      RemovedIdOwner(db, serverId, remote, db.accessKeys[p]);
    } else {
      assert pass.accessKeys[p] == CreatedRow(db, serverId, u, p - n, convert);
    }
  }

  /** Orphan deletion: a row of the table is deleted exactly when it belongs
      to the synced server and its `apiId` matches no remote key; a row with
      a null `apiId` is therefore deleted. */
  lemma DeletesExactlyOrphans(db: Db, serverId: nat, remote: seq<RemoteAccessKey>,
                              metrics: TransferMetrics, convert: Converter, x: AccessKey)
    requires ValidDb(db) && x in db.accessKeys
    ensures var result := SyncedAccessKeys(db, serverId, remote, metrics, convert);
      (x.serverId == serverId && !HasRemoteId(remote, x.apiId)) <==>
        forall y :: y in result.accessKeys ==> y.id != x.id
  {
    var local := OfServer(db.accessKeys, serverId);
    SyncedRows(db, serverId, remote, metrics, convert);
    OrphanRow(db, serverId, remote, metrics, convert, local, Unmatched(local, remote),
              SyncedAccessKeys(db, serverId, remote, metrics, convert).accessKeys, x);
  }

  lemma OrphanRow(db: Db, serverId: nat, remote: seq<RemoteAccessKey>, metrics: TransferMetrics, convert: Converter,
                  local: seq<AccessKey>, u: seq<RemoteAccessKey>, rows: seq<AccessKey>, x: AccessKey)
    requires ValidDb(db) && x in db.accessKeys
    requires RowsAfterSync(db, serverId, remote, metrics, convert, local, u, rows)
    ensures !Kept(x, serverId, remote) <==> forall y :: y in rows ==> y.id != x.id
  {
    var i :| 0 <= i < |db.accessKeys| && db.accessKeys[i] == x;
    PatchedByPassKeepsIdentity(x, local, remote, metrics, convert);
    if Kept(x, serverId, remote) {
      assert PatchedByPass(x, local, remote, metrics, convert) in rows;
    } else {
      forall y | y in rows ensures y.id != x.id {
        RowIdOrigin(db, serverId, remote, metrics, convert, local, u, rows, y);
        if y.id < db.nextAccessKeyId {
          var k :| 0 <= k < |db.accessKeys| && Kept(db.accessKeys[k], serverId, remote) &&
                   y == PatchedByPass(db.accessKeys[k], local, remote, metrics, convert) && y.id == db.accessKeys[k].id;
          assert db.accessKeys[k] in db.accessKeys && db.accessKeys[k] != x;
        }
      }
    }
  }

  /** A null `apiId` never matches, so such a row of the synced server is deleted. */
  lemma NullApiIdDeleted(db: Db, serverId: nat, remote: seq<RemoteAccessKey>,
                         metrics: TransferMetrics, convert: Converter, x: AccessKey)
    requires ValidDb(db) && x in db.accessKeys && x.serverId == serverId && x.apiId.None?
    ensures forall y :: y in SyncedAccessKeys(db, serverId, remote, metrics, convert).accessKeys ==> y.id != x.id
  {
    DeletesExactlyOrphans(db, serverId, remote, metrics, convert, x);
  }

  /** Identity stability and locally-owned field preservation: a row that
      survives the sync keeps its id, server, `apiId`, `prefix`, `expiresAt`,
      `dataLimitUnit` and connection fields. */
  lemma SurvivorsKeepIdentity(db: Db, serverId: nat, remote: seq<RemoteAccessKey>,
                              metrics: TransferMetrics, convert: Converter, x: AccessKey, y: AccessKey)
    requires ValidDb(db) && x in db.accessKeys
    requires y in SyncedAccessKeys(db, serverId, remote, metrics, convert).accessKeys && y.id == x.id
    ensures SameIdentity(x, y)
  {
    var local := OfServer(db.accessKeys, serverId);
    var u := Unmatched(local, remote);
    SyncedRows(db, serverId, remote, metrics, convert);
    if i :| 0 <= i < |db.accessKeys| && Kept(db.accessKeys[i], serverId, remote) &&
            y == PatchedByPass(db.accessKeys[i], local, remote, metrics, convert) {
      PatchedByPassKeepsIdentity(db.accessKeys[i], local, remote, metrics, convert);
      assert db.accessKeys[i] == x;
    }
  }

  /** Rows of every other server are neither changed, deleted nor added. */
  lemma OtherServersUntouched(db: Db, serverId: nat, remote: seq<RemoteAccessKey>,
                              metrics: TransferMetrics, convert: Converter, x: AccessKey)
    requires ValidDb(db) && x.serverId != serverId
    ensures x in db.accessKeys <==> x in SyncedAccessKeys(db, serverId, remote, metrics, convert).accessKeys
  {
    var local := OfServer(db.accessKeys, serverId);
    var u := Unmatched(local, remote);
    SyncedRows(db, serverId, remote, metrics, convert);
    OtherServerRow(db, serverId, remote, metrics, convert, local, u,
                   SyncedAccessKeys(db, serverId, remote, metrics, convert).accessKeys, x);
  }

  lemma OtherServerRow(db: Db, serverId: nat, remote: seq<RemoteAccessKey>, metrics: TransferMetrics, convert: Converter,
                       local: seq<AccessKey>, u: seq<RemoteAccessKey>, rows: seq<AccessKey>, x: AccessKey)
    requires ValidDb(db) && local == OfServer(db.accessKeys, serverId) && x.serverId != serverId
    requires RowsAfterSync(db, serverId, remote, metrics, convert, local, u, rows)
    ensures x in db.accessKeys <==> x in rows
  {
    if x in db.accessKeys {
      var i :| 0 <= i < |db.accessKeys| && db.accessKeys[i] == x;
      OtherServerRowUnpatched(db, serverId, remote, metrics, convert, local, x);
    }
    if x in rows {
      assert forall j :: 0 <= j < |u| ==> CreatedRow(db, serverId, u, j, convert).serverId == serverId;
      var i :| 0 <= i < |db.accessKeys| && Kept(db.accessKeys[i], serverId, remote) &&
               x == PatchedByPass(db.accessKeys[i], local, remote, metrics, convert);
      var k := db.accessKeys[i];
      PatchedByPassKeepsIdentity(k, local, remote, metrics, convert);
      OtherServerRowUnpatched(db, serverId, remote, metrics, convert, local, k);
    }
  }

  /** The update pass leaves a row of another server as it was. */
  lemma OtherServerRowUnpatched(db: Db, serverId: nat, remote: seq<RemoteAccessKey>, metrics: TransferMetrics,
                                convert: Converter, local: seq<AccessKey>, x: AccessKey)
    requires ValidDb(db) && local == OfServer(db.accessKeys, serverId)
    requires x in db.accessKeys && x.serverId != serverId
    ensures PatchedByPass(x, local, remote, metrics, convert) == x
  {
    forall i | 0 <= i < |remote|
      ensures FindByApiId(local, remote[i].id).None? || FindByApiId(local, remote[i].id).value.id != x.id
    {
      var found := FindByApiId(local, remote[i].id);
      if found.Some? {
        assert found.value in local;
      }
    }
    PatchedByPassMiss(x, local, remote, metrics, convert);
  }

  /** With distinct remote ids, the row `find` returns for a remote key ends
      up patched by it: name from the remote key, limit converted with the
      row's own unit, usage from the metrics when they have an entry. */
  lemma MatchedKeyPatched(db: Db, serverId: nat, remote: seq<RemoteAccessKey>,
                          metrics: TransferMetrics, convert: Converter, n: nat, x: AccessKey)
    requires ValidDb(db) && DistinctRemoteIds(remote)
    requires n < |remote| && FindByApiId(OfServer(db.accessKeys, serverId), remote[n].id) == Some(x)
    ensures var y := Patched(x, PatchFor(remote[n], x.dataLimitUnit, metrics, convert));
      var usage := metrics.bytesTransferredByUserId;
      && y in SyncedAccessKeys(db, serverId, remote, metrics, convert).accessKeys
      && SameIdentity(x, y)
      && y.name == remote[n].name
      && y.dataLimit == LimitFor(remote[n].dataLimitInBytes, x.dataLimitUnit, convert)
      && y.dataUsage == (if remote[n].id in usage then usage[remote[n].id] else x.dataUsage)
  {
    var local := OfServer(db.accessKeys, serverId);
    SyncedRows(db, serverId, remote, metrics, convert);
    PatchedByPassHit(x, local, remote, n, metrics, convert);
    var i :| 0 <= i < |db.accessKeys| && db.accessKeys[i] == x;
    assert remote[n] in remote;
    assert Kept(x, serverId, remote);
  }

  /** Every remote key that matches no loaded row yields one new row, with
      the server's id, `apiId` equal to the remote id, unit `Bytes`, no prefix
      and no expiry; the new rows are exactly these, numbered from the
      table's next id. */
  lemma UnmatchedKeysCreated(db: Db, serverId: nat, remote: seq<RemoteAccessKey>,
                             metrics: TransferMetrics, convert: Converter)
    requires ValidDb(db)
    ensures var result := SyncedAccessKeys(db, serverId, remote, metrics, convert);
      var u := Unmatched(OfServer(db.accessKeys, serverId), remote);
      && result.nextAccessKeyId == db.nextAccessKeyId + |u|
      && (forall j :: 0 <= j < |u| ==> CreatedRow(db, serverId, u, j, convert) in result.accessKeys)
      && (forall y :: y in result.accessKeys && y.id >= db.nextAccessKeyId ==>
            exists j :: 0 <= j < |u| && y == CreatedRow(db, serverId, u, j, convert))
  {
    var local := OfServer(db.accessKeys, serverId);
    var u := Unmatched(local, remote);
    var result := SyncedAccessKeys(db, serverId, remote, metrics, convert);
    SyncedRows(db, serverId, remote, metrics, convert);
    forall y | y in result.accessKeys && y.id >= db.nextAccessKeyId
      ensures exists j :: 0 <= j < |u| && y == CreatedRow(db, serverId, u, j, convert)
    {
      if i :| 0 <= i < |db.accessKeys| && Kept(db.accessKeys[i], serverId, remote) &&
              y == PatchedByPass(db.accessKeys[i], local, remote, metrics, convert) {
        PatchedByPassKeepsIdentity(db.accessKeys[i], local, remote, metrics, convert);
        assert false;
      }
    }
  }

  /** The fields of a created row: the synced server, the remote id as
      `apiId`, name and connection fields from the remote key, unit `Bytes`,
      no prefix and no expiry, usage 0, and the limit converted into `Bytes`. */
  lemma CreatedRowFields(db: Db, serverId: nat, u: seq<RemoteAccessKey>, j: nat, convert: Converter)
    requires j < |u|
    ensures var y := CreatedRow(db, serverId, u, j, convert);
      && y.id == db.nextAccessKeyId + j && y.serverId == serverId && y.apiId == Some(u[j].id)
      && y.name == u[j].name && y.accessUrl == u[j].accessUrl && y.cipherMethod == u[j].cipherMethod
      && y.password == u[j].password && y.port == u[j].port
      && y.dataLimitUnit == Bytes && y.prefix.None? && y.expiresAt.None? && y.dataUsage == 0
      && (y.dataLimit.None? <==> u[j].dataLimitInBytes.None? || u[j].dataLimitInBytes.value == 0)
      && (y.dataLimit.Some? ==> y.dataLimit.value == convert(u[j].dataLimitInBytes.value, Bytes))
  {
  }

  /** Convergence: afterwards the `apiId`s among the server's rows are
      exactly the remote ids (duplicates in either list notwithstanding). */
  lemma ApiIdsConverge(db: Db, serverId: nat, remote: seq<RemoteAccessKey>,
                       metrics: TransferMetrics, convert: Converter)
    requires ValidDb(db)
    ensures ApiIdsOf(SyncedAccessKeys(db, serverId, remote, metrics, convert).accessKeys, serverId) == RemoteApiIds(remote)
  {
    var local := OfServer(db.accessKeys, serverId);
    var u := Unmatched(local, remote);
    var rows := SyncedAccessKeys(db, serverId, remote, metrics, convert).accessKeys;
    SyncedRows(db, serverId, remote, metrics, convert);
    forall a | a in ApiIdsOf(rows, serverId) ensures a in RemoteApiIds(remote) {
      var y :| y in rows && y.serverId == serverId && y.apiId == a;
      var r := RowApiIdIsRemote(db, serverId, remote, metrics, convert, local, u, rows, y);
    }
    forall a | a in RemoteApiIds(remote) ensures a in ApiIdsOf(rows, serverId) {
      var r :| r in remote && a == Some(r.id);
      var y := RemoteKeyHasRow(db, serverId, remote, metrics, convert, local, u, rows, r);
    }
  }

  /** A row of the synced server left by the sync carries a remote id. */
  lemma RowApiIdIsRemote(db: Db, serverId: nat, remote: seq<RemoteAccessKey>, metrics: TransferMetrics, convert: Converter,
                         local: seq<AccessKey>, u: seq<RemoteAccessKey>, rows: seq<AccessKey>, y: AccessKey)
      returns (r: RemoteAccessKey)
    requires u == Unmatched(local, remote)
    requires RowsAfterSync(db, serverId, remote, metrics, convert, local, u, rows)
    requires y in rows && y.serverId == serverId
    ensures r in remote && y.apiId == Some(r.id)
  {
    if i :| 0 <= i < |db.accessKeys| && Kept(db.accessKeys[i], serverId, remote) &&
            y == PatchedByPass(db.accessKeys[i], local, remote, metrics, convert) {
      PatchedByPassKeepsIdentity(db.accessKeys[i], local, remote, metrics, convert);
      r :| r in remote && y.apiId == Some(r.id);
    } else {
      var j :| 0 <= j < |u| && y == CreatedRow(db, serverId, u, j, convert);
      assert u[j] in u;
      r := u[j];
    }
  }

  /** Every remote key has a row of the synced server carrying its id afterwards. */
  lemma RemoteKeyHasRow(db: Db, serverId: nat, remote: seq<RemoteAccessKey>, metrics: TransferMetrics, convert: Converter,
                        local: seq<AccessKey>, u: seq<RemoteAccessKey>, rows: seq<AccessKey>, r: RemoteAccessKey)
      returns (y: AccessKey)
    requires local == OfServer(db.accessKeys, serverId) && u == Unmatched(local, remote)
    requires RowsAfterSync(db, serverId, remote, metrics, convert, local, u, rows)
    requires r in remote
    ensures y in rows && y.serverId == serverId && y.apiId == Some(r.id)
  {
    var found := FindByApiId(local, r.id);
    if found.Some? {
      var x := found.value;
      assert x in local;
      var i :| 0 <= i < |db.accessKeys| && db.accessKeys[i] == x;
      PatchedByPassKeepsIdentity(x, local, remote, metrics, convert);
      assert HasRemoteId(remote, x.apiId);
      y := PatchedByPass(x, local, remote, metrics, convert);
    } else {
      assert r in u;
      var j :| 0 <= j < |u| && u[j] == r;
      y := CreatedRow(db, serverId, u, j, convert);
    }
  }

  /** The sync keeps the table's invariant. */
  lemma SyncedKeepsValid(db: Db, serverId: nat, remote: seq<RemoteAccessKey>,
                         metrics: TransferMetrics, convert: Converter)
    requires ValidDb(db)
    ensures ValidDb(SyncedAccessKeys(db, serverId, remote, metrics, convert))
  {
    var local := OfServer(db.accessKeys, serverId);
    var u := Unmatched(local, remote);
    var result := SyncedAccessKeys(db, serverId, remote, metrics, convert);
    SyncedRows(db, serverId, remote, metrics, convert);
    RowsAfterSyncValid(db, serverId, remote, metrics, convert, local, u, result.accessKeys);
  }

  lemma RowsAfterSyncValid(db: Db, serverId: nat, remote: seq<RemoteAccessKey>, metrics: TransferMetrics, convert: Converter,
                           local: seq<AccessKey>, u: seq<RemoteAccessKey>, rows: seq<AccessKey>)
    requires ValidDb(db)
    requires RowsAfterSync(db, serverId, remote, metrics, convert, local, u, rows)
    ensures ValidDb(Db(db.servers, rows, db.nextAccessKeyId + |u|))
  {
    forall a | a in rows ensures a.id < db.nextAccessKeyId + |u| {
      RowIdOrigin(db, serverId, remote, metrics, convert, local, u, rows, a);
    }
    forall a, b | a in rows && b in rows && a.id == b.id ensures a == b {
      RowIdUnique(db, serverId, remote, metrics, convert, local, u, rows, a, b);
    }
  }

  lemma RowIdUnique(db: Db, serverId: nat, remote: seq<RemoteAccessKey>, metrics: TransferMetrics, convert: Converter,
                    local: seq<AccessKey>, u: seq<RemoteAccessKey>, rows: seq<AccessKey>, a: AccessKey, b: AccessKey)
    requires ValidDb(db)
    requires RowsAfterSync(db, serverId, remote, metrics, convert, local, u, rows)
    requires a in rows && b in rows && a.id == b.id
    ensures a == b
  {
    RowIdOrigin(db, serverId, remote, metrics, convert, local, u, rows, a);
    RowIdOrigin(db, serverId, remote, metrics, convert, local, u, rows, b);
    if a.id < db.nextAccessKeyId {
      var i :| 0 <= i < |db.accessKeys| && a == PatchedByPass(db.accessKeys[i], local, remote, metrics, convert) &&
        a.id == db.accessKeys[i].id;
      var k :| 0 <= k < |db.accessKeys| && b == PatchedByPass(db.accessKeys[k], local, remote, metrics, convert) &&
        b.id == db.accessKeys[k].id;
      assert db.accessKeys[i] in db.accessKeys && db.accessKeys[k] in db.accessKeys;
    } else {
      var i :| 0 <= i < |u| && a == CreatedRow(db, serverId, u, i, convert);
      var k :| 0 <= k < |u| && b == CreatedRow(db, serverId, u, k, convert);
    }
  }

  /** A row left by the sync with an old id is an old row patched; one with
      a new id is a created row. */
  lemma RowIdOrigin(db: Db, serverId: nat, remote: seq<RemoteAccessKey>, metrics: TransferMetrics, convert: Converter,
                    local: seq<AccessKey>, u: seq<RemoteAccessKey>, rows: seq<AccessKey>, a: AccessKey)
    requires ValidDb(db)
    requires RowsAfterSync(db, serverId, remote, metrics, convert, local, u, rows)
    requires a in rows
    ensures a.id < db.nextAccessKeyId + |u|
    ensures a.id < db.nextAccessKeyId ==>
      exists i :: 0 <= i < |db.accessKeys| && Kept(db.accessKeys[i], serverId, remote) &&
        a == PatchedByPass(db.accessKeys[i], local, remote, metrics, convert) && a.id == db.accessKeys[i].id
    ensures a.id >= db.nextAccessKeyId ==>
      exists j :: 0 <= j < |u| && a == CreatedRow(db, serverId, u, j, convert)
  {
    if i :| 0 <= i < |db.accessKeys| && Kept(db.accessKeys[i], serverId, remote) &&
            a == PatchedByPass(db.accessKeys[i], local, remote, metrics, convert) {
      PatchedByPassKeepsIdentity(db.accessKeys[i], local, remote, metrics, convert);
      assert db.accessKeys[i] in db.accessKeys;
    } else {
      var j :| 0 <= j < |u| && a == CreatedRow(db, serverId, u, j, convert);
    }
  }

  /** When every remote id has a loaded row, the update/create pass creates nothing. */
  lemma {:induction false} NothingUnmatched(local: seq<AccessKey>, remote: seq<RemoteAccessKey>)
    requires forall r :: r in remote ==> FindByApiId(local, r.id).Some?
    ensures Unmatched(local, remote) == []
    decreases |remote|
  {
    if remote != [] {
      var init := remote[..|remote| - 1];
      assert forall r :: r in init ==> r in remote;
      NothingUnmatched(local, init);
      assert remote[|remote| - 1] in remote;
    }
  }

  /** When every loaded row matches a remote key, the delete pass collects nothing. */
  lemma {:induction false} NothingToRemove(local: seq<AccessKey>, remote: seq<RemoteAccessKey>)
    requires forall k :: k in local ==> HasRemoteId(remote, k.apiId)
    ensures KeysToRemove(local, remote) == []
    decreases |local|
  {
    if local != [] {
      var init := local[..|local| - 1];
      assert forall k :: k in init ==> k in local;
      NothingToRemove(init, remote);
      assert local[|local| - 1] in local;
    }
  }

  /** Once the server's `apiId`s are the remote ids, every remote key finds
      a loaded row and every loaded row matches a remote key. */
  lemma ConvergedMatchesAll(rows: seq<AccessKey>, serverId: nat, remote: seq<RemoteAccessKey>)
    requires ApiIdsOf(rows, serverId) == RemoteApiIds(remote)
    ensures forall r :: r in remote ==> FindByApiId(OfServer(rows, serverId), r.id).Some?
    ensures forall k :: k in OfServer(rows, serverId) ==> HasRemoteId(remote, k.apiId)
  {
    var local := OfServer(rows, serverId);
    forall r | r in remote ensures FindByApiId(local, r.id).Some? {
      assert Some(r.id) in RemoteApiIds(remote);
      var k :| k in rows && k.serverId == serverId && k.apiId == Some(r.id);
      assert k in local;
    }
    forall k | k in local ensures HasRemoteId(remote, k.apiId) {
      assert k.apiId in ApiIdsOf(rows, serverId);
    }
  }

  /** Idempotence: a second sync against the same remote keys creates and
      deletes nothing; every row keeps its place, identity and
      locally-owned fields. */
  lemma SecondRunNoCreatesNoDeletes(db: Db, serverId: nat, remote: seq<RemoteAccessKey>,
                                    metrics: TransferMetrics, convert: Converter)
    requires ValidDb(db)
    ensures var once := SyncedAccessKeys(db, serverId, remote, metrics, convert);
      var twice := SyncedAccessKeys(once, serverId, remote, metrics, convert);
      && Unmatched(OfServer(once.accessKeys, serverId), remote) == []
      && KeysToRemove(OfServer(once.accessKeys, serverId), remote) == []
      && twice.nextAccessKeyId == once.nextAccessKeyId
      && |twice.accessKeys| == |once.accessKeys|
      && forall i :: 0 <= i < |once.accessKeys| ==> SameIdentity(once.accessKeys[i], twice.accessKeys[i])
  {
    var once := SyncedAccessKeys(db, serverId, remote, metrics, convert);
    SyncedKeepsValid(db, serverId, remote, metrics, convert);
    ApiIdsConverge(db, serverId, remote, metrics, convert);
    ConvergedMatchesAll(once.accessKeys, serverId, remote);
    SecondRunShape(once, serverId, remote, metrics, convert);
  }

  /** A sync whose passes find nothing to create and nothing to delete keeps
      every row in place with its identity. */
  lemma SecondRunShape(once: Db, serverId: nat, remote: seq<RemoteAccessKey>,
                       metrics: TransferMetrics, convert: Converter)
    requires ValidDb(once)
    requires forall r :: r in remote ==> FindByApiId(OfServer(once.accessKeys, serverId), r.id).Some?
    requires forall k :: k in OfServer(once.accessKeys, serverId) ==> HasRemoteId(remote, k.apiId)
    ensures var twice := SyncedAccessKeys(once, serverId, remote, metrics, convert);
      && Unmatched(OfServer(once.accessKeys, serverId), remote) == []
      && KeysToRemove(OfServer(once.accessKeys, serverId), remote) == []
      && twice.nextAccessKeyId == once.nextAccessKeyId
      && |twice.accessKeys| == |once.accessKeys|
      && forall i :: 0 <= i < |once.accessKeys| ==> SameIdentity(once.accessKeys[i], twice.accessKeys[i])
  {
    var local := OfServer(once.accessKeys, serverId);
    NothingUnmatched(local, remote);
    NothingToRemove(local, remote);
    UpdateCreatePassShape(once, local, serverId, remote, metrics, convert);
    forall i | 0 <= i < |once.accessKeys| {
      PatchedByPassKeepsIdentity(once.accessKeys[i], local, remote, metrics, convert);
    }
  }
}
