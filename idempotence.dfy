/** What a second `syncAccessKeys` against the same remote keys writes: with
    distinct remote ids, every row keeps its name and limit, and only the
    usage of the rows the first run created can change, because a created
    row's usage is not taken from the metrics. */
module KeyIdempotence {
  import opened Definitions
  import opened KeyReconciler
  import opened KeyProperties

  /** Each row as the update pass leaves it. */
  function PatchAll(rows: seq<AccessKey>, local: seq<AccessKey>, remote: seq<RemoteAccessKey>,
                    metrics: TransferMetrics, convert: Converter): (patched: seq<AccessKey>)
    ensures |patched| == |rows|
  {
    seq(|rows|, i requires 0 <= i < |rows| => PatchedByPass(rows[i], local, remote, metrics, convert))
  }

  /** The rows the create pass appends, in order. */
  function CreatedRows(db: Db, serverId: nat, u: seq<RemoteAccessKey>, convert: Converter): (created: seq<AccessKey>)
    ensures |created| == |u|
  {
    seq(|u|, j requires 0 <= j < |u| => CreatedRow(db, serverId, u, j, convert))
  }

  /** `deleteMany` with an empty id list deletes nothing. */
  lemma {:induction false} RemoveNothing(rows: seq<AccessKey>)
    ensures RemoveIds(rows, []) == rows
  {
    if rows != [] {
      RemoveNothing(rows[1..]);
    }
  }

  /** Loading one server's rows distributes over concatenation. */
  lemma {:induction false} OfServerAppend(a: seq<AccessKey>, b: seq<AccessKey>, serverId: nat)
    ensures OfServer(a + b, serverId) == OfServer(a, serverId) + OfServer(b, serverId)
  {
    if a == [] {
      assert a + b == b;
    } else {
      assert (a + b)[0] == a[0];
      assert (a + b)[1..] == a[1..] + b;
      OfServerAppend(a[1..], b, serverId);
    }
  }

  /** Loading one server's rows commutes with deleting ids. */
  lemma {:induction false} OfServerRemoveIds(rows: seq<AccessKey>, ids: seq<nat>, serverId: nat)
    ensures OfServer(RemoveIds(rows, ids), serverId) == RemoveIds(OfServer(rows, serverId), ids)
  {
    if rows != [] {
      var head := rows[0];
      var rest := OfServer(rows[1..], serverId);
      OfServerRemoveIds(rows[1..], ids, serverId);
      OfServerAppend(if head.id in ids then [] else [head], RemoveIds(rows[1..], ids), serverId);
      if head.serverId == serverId {
        assert ([head] + rest)[0] == head;
        assert ([head] + rest)[1..] == rest;
      } else {
        assert [] + rest == rest;
      }
    }
  }

  /** Loading one server's rows commutes with the update pass, which keeps `serverId`. */
  lemma {:induction false} OfServerPatchAll(rows: seq<AccessKey>, serverId: nat, local: seq<AccessKey>,
                                            remote: seq<RemoteAccessKey>, metrics: TransferMetrics, convert: Converter)
    ensures OfServer(PatchAll(rows, local, remote, metrics, convert), serverId) ==
            PatchAll(OfServer(rows, serverId), local, remote, metrics, convert)
  {
    if rows != [] {
      var patched := PatchAll(rows, local, remote, metrics, convert);
      assert patched[1..] == PatchAll(rows[1..], local, remote, metrics, convert);
      OfServerPatchAll(rows[1..], serverId, local, remote, metrics, convert);
      PatchedByPassKeepsIdentity(rows[0], local, remote, metrics, convert);
      var rest := OfServer(rows[1..], serverId);
      if rows[0].serverId == serverId {
        assert ([rows[0]] + rest)[0] == rows[0];
        assert ([rows[0]] + rest)[1..] == rest;
        assert PatchAll([rows[0]] + rest, local, remote, metrics, convert) ==
               [PatchedByPass(rows[0], local, remote, metrics, convert)] + PatchAll(rest, local, remote, metrics, convert);
      } else {
        assert [] + rest == rest;
      }
    }
  }

  /** Rows that all belong to the server are loaded as they are. */
  lemma {:induction false} OfServerOfOwnRows(rows: seq<AccessKey>, serverId: nat)
    requires forall k :: k in rows ==> k.serverId == serverId
    ensures OfServer(rows, serverId) == rows
  {
    if rows != [] {
      assert rows[0] in rows;
      assert forall k :: k in rows[1..] ==> k in rows;
      OfServerOfOwnRows(rows[1..], serverId);
      assert [rows[0]] + rows[1..] == rows;
    }
  }

  /** `find` over a concatenation looks in the second part only when the first has no match. */
  lemma {:induction false} FindAppend(a: seq<AccessKey>, b: seq<AccessKey>, id: string)
    ensures FindByApiId(a + b, id) == if FindByApiId(a, id).Some? then FindByApiId(a, id) else FindByApiId(b, id)
  {
    if a == [] {
      assert a + b == b;
    } else {
      assert (a + b)[0] == a[0];
      assert (a + b)[1..] == a[1..] + b;
      FindAppend(a[1..], b, id);
    }
  }

  /** Deleting rows none of which carries `id` does not change what `find` returns. */
  lemma {:induction false} FindRemoveIds(rows: seq<AccessKey>, ids: seq<nat>, id: string)
    requires forall k :: k in rows && k.apiId == Some(id) ==> k.id !in ids
    ensures FindByApiId(RemoveIds(rows, ids), id) == FindByApiId(rows, id)
  {
    if rows != [] {
      var head := rows[0];
      var rest := RemoveIds(rows[1..], ids);
      assert RemoveIds(rows, ids) == (if head.id in ids then [] else [head]) + rest;
      if head.apiId == Some(id) {
        assert head in rows;
        assert ([head] + rest)[0] == head;
      } else {
        forall k | k in rows[1..] && k.apiId == Some(id) ensures k.id !in ids {
          assert k in rows;
        }
        FindRemoveIds(rows[1..], ids, id);
        if head.id !in ids {
          assert ([head] + rest)[1..] == rest;
        } else {
          assert [] + rest == rest;
        }
      }
    }
  }

  /** `find` over the patched rows returns the patched match. */
  lemma {:induction false} FindPatchAll(rows: seq<AccessKey>, id: string, local: seq<AccessKey>,
                                        remote: seq<RemoteAccessKey>, metrics: TransferMetrics, convert: Converter)
    ensures var found := FindByApiId(rows, id);
      FindByApiId(PatchAll(rows, local, remote, metrics, convert), id) ==
        if found.Some? then Some(PatchedByPass(found.value, local, remote, metrics, convert)) else None
  {
    if rows != [] {
      var patched := PatchAll(rows, local, remote, metrics, convert);
      assert patched[1..] == PatchAll(rows[1..], local, remote, metrics, convert);
      PatchedByPassKeepsIdentity(rows[0], local, remote, metrics, convert);
      FindPatchAll(rows[1..], id, local, remote, metrics, convert);
    }
  }

  /** The update/create pass as one sequence: every row patched, then the
      created rows. */
  lemma PassAsSequence(db: Db, local: seq<AccessKey>, serverId: nat, remote: seq<RemoteAccessKey>,
                       metrics: TransferMetrics, convert: Converter)
    requires forall x :: x in local ==> x.id < db.nextAccessKeyId
    ensures UpdateCreatePass(db, local, serverId, remote, metrics, convert).accessKeys ==
            PatchAll(db.accessKeys, local, remote, metrics, convert) +
            CreatedRows(db, serverId, Unmatched(local, remote), convert)
  {
    var d := UpdateCreatePass(db, local, serverId, remote, metrics, convert).accessKeys;
    var patched := PatchAll(db.accessKeys, local, remote, metrics, convert);
    var created := CreatedRows(db, serverId, Unmatched(local, remote), convert);
    UpdateCreatePassShape(db, local, serverId, remote, metrics, convert);
    forall p | 0 <= p < |d| ensures d[p] == (patched + created)[p] {
      if p < |patched| {
        assert d[p] == patched[p];
      } else {
        assert d[p] == created[p - |patched|];
      }
    }
  }

  /** Under the table invariant, the rows after the sync are the patched rows
      and the created rows, less the deleted ids. */
  lemma SyncedRowsAsSequence(db: Db, serverId: nat, remote: seq<RemoteAccessKey>,
                             metrics: TransferMetrics, convert: Converter)
    requires ValidDb(db)
    ensures var local := OfServer(db.accessKeys, serverId);
      SyncedAccessKeys(db, serverId, remote, metrics, convert).accessKeys ==
        RemoveIds(PatchAll(db.accessKeys, local, remote, metrics, convert) +
                  CreatedRows(db, serverId, Unmatched(local, remote), convert),
                  KeysToRemove(local, remote))
  {
    var local := OfServer(db.accessKeys, serverId);
    var pass := UpdateCreatePass(db, local, serverId, remote, metrics, convert);
    PassAsSequence(db, local, serverId, remote, metrics, convert);
    if |KeysToRemove(local, remote)| == 0 {
      RemoveNothing(pass.accessKeys);
    }
  }

  /** The rows the second run loads: the first run's loaded rows patched, and
      its created rows, less the deleted ids. */
  lemma SecondLoad(db: Db, serverId: nat, remote: seq<RemoteAccessKey>,
                   metrics: TransferMetrics, convert: Converter)
    requires ValidDb(db)
    ensures var local := OfServer(db.accessKeys, serverId);
      var once := SyncedAccessKeys(db, serverId, remote, metrics, convert);
      OfServer(once.accessKeys, serverId) ==
        RemoveIds(PatchAll(local, local, remote, metrics, convert) +
                  CreatedRows(db, serverId, Unmatched(local, remote), convert),
                  KeysToRemove(local, remote))
  {
    var local := OfServer(db.accessKeys, serverId);
    var u := Unmatched(local, remote);
    var patched := PatchAll(db.accessKeys, local, remote, metrics, convert);
    var created := CreatedRows(db, serverId, u, convert);
    var ids := KeysToRemove(local, remote);
    SyncedRowsAsSequence(db, serverId, remote, metrics, convert);
    OfServerRemoveIds(patched + created, ids, serverId);
    OfServerAppend(patched, created, serverId);
    OfServerPatchAll(db.accessKeys, serverId, local, remote, metrics, convert);
    OfServerOfOwnRows(created, serverId);
  }

  /** A loaded row whose `apiId` a remote key carries is not deleted. */
  lemma LoadedMatchKept(local: seq<AccessKey>, remote: seq<RemoteAccessKey>, k: AccessKey)
    requires UniqueIds(local) && k in local && HasRemoteId(remote, k.apiId)
    ensures k.id !in KeysToRemove(local, remote)
  {
  }

  /** A row numbered past every loaded row is not deleted. */
  lemma FreshIdKept(local: seq<AccessKey>, remote: seq<RemoteAccessKey>, next: nat, id: nat)
    requires forall x :: x in local ==> x.id < next
    requires next <= id
    ensures id !in KeysToRemove(local, remote)
  {
  }

  /** The delete pass removes no row whose `apiId` is a remote id. */
  lemma MatchedRowsNotRemoved(db: Db, serverId: nat, remote: seq<RemoteAccessKey>,
                              metrics: TransferMetrics, convert: Converter, r: RemoteAccessKey)
    requires ValidDb(db) && r in remote
    ensures var local := OfServer(db.accessKeys, serverId);
      var rows := PatchAll(local, local, remote, metrics, convert) +
                  CreatedRows(db, serverId, Unmatched(local, remote), convert);
      forall k :: k in rows && k.apiId == Some(r.id) ==> k.id !in KeysToRemove(local, remote)
  {
    var local := OfServer(db.accessKeys, serverId);
    var u := Unmatched(local, remote);
    var patched := PatchAll(local, local, remote, metrics, convert);
    var created := CreatedRows(db, serverId, u, convert);
    assert UniqueIds(local);
    forall k: AccessKey | k in patched + created && k.apiId == Some(r.id)
      ensures k.id !in KeysToRemove(local, remote)
    {
      if k in patched {
        var p :| 0 <= p < |patched| && patched[p] == k;
        PatchedByPassKeepsIdentity(local[p], local, remote, metrics, convert);
        LoadedMatchKept(local, remote, local[p]);
      } else {
        var j :| 0 <= j < |created| && created[j] == k;
        FreshIdKept(local, remote, db.nextAccessKeyId, k.id);
      }
    }
  }

  /** Under distinct remote ids, two remote keys with the same id are the same key. */
  lemma SameIdSameKey(remote: seq<RemoteAccessKey>, r: RemoteAccessKey, s: RemoteAccessKey)
    requires DistinctRemoteIds(remote) && r in remote && s in remote && r.id == s.id
    ensures r == s
  {
    var a :| 0 <= a < |remote| && remote[a] == r;
    var b :| 0 <= b < |remote| && remote[b] == s;
    assert a == b;
  }

  /** Among the created rows, `find` for an unmatched remote key returns the
      row created for that key. */
  lemma FindCreated(db: Db, serverId: nat, remote: seq<RemoteAccessKey>, u: seq<RemoteAccessKey>,
                    convert: Converter, r: RemoteAccessKey)
    requires DistinctRemoteIds(remote) && r in u
    requires forall x :: x in u ==> x in remote
    ensures exists j :: 0 <= j < |u| && u[j] == r &&
                        FindByApiId(CreatedRows(db, serverId, u, convert), r.id) == Some(CreatedRow(db, serverId, u, j, convert))
  {
    var created := CreatedRows(db, serverId, u, convert);
    var j :| 0 <= j < |u| && u[j] == r;
    assert created[j] in created && created[j].apiId == Some(r.id);
    var found := FindByApiId(created, r.id);
    var k :| 0 <= k < |created| && created[k] == found.value && found.value.apiId == Some(r.id);
    assert u[k] in u;
    SameIdSameKey(remote, u[k], r);
  }

  /** `find` in the second load, in terms of the first run's passes. */
  lemma FindInSecondLoad(local: seq<AccessKey>, remote: seq<RemoteAccessKey>, metrics: TransferMetrics,
                         convert: Converter, created: seq<AccessKey>, ids: seq<nat>, id: string)
    requires forall k :: k in PatchAll(local, local, remote, metrics, convert) + created && k.apiId == Some(id) ==> k.id !in ids
    ensures var first := FindByApiId(local, id);
      FindByApiId(RemoveIds(PatchAll(local, local, remote, metrics, convert) + created, ids), id) ==
        if first.Some? then Some(PatchedByPass(first.value, local, remote, metrics, convert))
        else FindByApiId(created, id)
  {
    var patched := PatchAll(local, local, remote, metrics, convert);
    FindRemoveIds(patched + created, ids, id);
    FindAppend(patched, created, id);
    FindPatchAll(local, id, local, remote, metrics, convert);
  }

  /** In the second run, a remote key's `find` returns the row the first
      run patched for it, or else the row the first run created for it. */
  lemma SecondRunFind(db: Db, serverId: nat, remote: seq<RemoteAccessKey>,
                      metrics: TransferMetrics, convert: Converter, r: RemoteAccessKey)
    requires ValidDb(db) && DistinctRemoteIds(remote) && r in remote
    ensures var local := OfServer(db.accessKeys, serverId);
      var u := Unmatched(local, remote);
      var once := SyncedAccessKeys(db, serverId, remote, metrics, convert);
      var again := FindByApiId(OfServer(once.accessKeys, serverId), r.id);
      var first := FindByApiId(local, r.id);
      && (first.Some? ==> again == Some(PatchedByPass(first.value, local, remote, metrics, convert)))
      && (first.None? ==> exists j :: 0 <= j < |u| && u[j] == r && again == Some(CreatedRow(db, serverId, u, j, convert)))
  {
    var local := OfServer(db.accessKeys, serverId);
    var u := Unmatched(local, remote);
    var created := CreatedRows(db, serverId, u, convert);
    SecondLoad(db, serverId, remote, metrics, convert);
    MatchedRowsNotRemoved(db, serverId, remote, metrics, convert, r);
    FindInSecondLoad(local, remote, metrics, convert, created, KeysToRemove(local, remote), r.id);
    if FindByApiId(local, r.id).None? {
      FindCreated(db, serverId, remote, u, convert, r);
    }
  }

  /** The second run's rows are the first run's, each patched by the second update pass. */
  lemma SecondRunRows(db: Db, serverId: nat, remote: seq<RemoteAccessKey>,
                      metrics: TransferMetrics, convert: Converter)
    requires ValidDb(db)
    ensures var once := SyncedAccessKeys(db, serverId, remote, metrics, convert);
      var twice := SyncedAccessKeys(once, serverId, remote, metrics, convert);
      var local := OfServer(once.accessKeys, serverId);
      && ValidDb(once)
      && |twice.accessKeys| == |once.accessKeys|
      && forall i :: 0 <= i < |once.accessKeys| ==>
           twice.accessKeys[i] == PatchedByPass(once.accessKeys[i], local, remote, metrics, convert)
  {
    var once := SyncedAccessKeys(db, serverId, remote, metrics, convert);
    var local := OfServer(once.accessKeys, serverId);
    SecondRunNoCreatesNoDeletes(db, serverId, remote, metrics, convert);
    SyncedKeepsValid(db, serverId, remote, metrics, convert);
    UpdateCreatePassShape(once, local, serverId, remote, metrics, convert);
  }

  /** Idempotence of the written values: with distinct remote ids, a second
      sync against the same remote keys leaves every row's name, limit and
      identity as the first left them, and changes no row that existed
      before the first run; only a row the first run created can get a new
      usage, taken from the metrics. */
  lemma SecondRunRewritesSameValues(db: Db, serverId: nat, remote: seq<RemoteAccessKey>,
                                    metrics: TransferMetrics, convert: Converter, i: nat)
    requires ValidDb(db) && DistinctRemoteIds(remote)
    requires i < |SyncedAccessKeys(db, serverId, remote, metrics, convert).accessKeys|
    ensures var once := SyncedAccessKeys(db, serverId, remote, metrics, convert);
      var twice := SyncedAccessKeys(once, serverId, remote, metrics, convert);
      && |twice.accessKeys| == |once.accessKeys|
      && SameIdentity(once.accessKeys[i], twice.accessKeys[i])
      && twice.accessKeys[i].name == once.accessKeys[i].name
      && twice.accessKeys[i].dataLimit == once.accessKeys[i].dataLimit
      && (once.accessKeys[i].id < db.nextAccessKeyId ==> twice.accessKeys[i] == once.accessKeys[i])
  {
    var once := SyncedAccessKeys(db, serverId, remote, metrics, convert);
    var local := OfServer(db.accessKeys, serverId);
    var local2 := OfServer(once.accessKeys, serverId);
    var k := once.accessKeys[i];
    SecondRunRows(db, serverId, remote, metrics, convert);
    PatchedByPassKeepsIdentity(k, local2, remote, metrics, convert);
    if n :| 0 <= n < |remote| && FindByApiId(local2, remote[n].id).Some? &&
            FindByApiId(local2, remote[n].id).value.id == k.id {
      SecondRunHit(db, serverId, remote, metrics, convert, i, n);
    } else {
      PatchedByPassMiss(k, local2, remote, metrics, convert);
    }
  }

  /** Patching a row again with the patch that produced it changes nothing. */
  lemma RepatchPatched(x: AccessKey, r: RemoteAccessKey, metrics: TransferMetrics, convert: Converter)
    ensures var k := Patched(x, PatchFor(r, x.dataLimitUnit, metrics, convert));
      Patched(k, PatchFor(r, k.dataLimitUnit, metrics, convert)) == k
  {
  }

  /** Patching a created row with its own remote key keeps its name and limit. */
  lemma RepatchCreated(db: Db, serverId: nat, u: seq<RemoteAccessKey>, j: nat,
                       metrics: TransferMetrics, convert: Converter)
    requires j < |u|
    ensures var k := CreatedRow(db, serverId, u, j, convert);
      var again := Patched(k, PatchFor(u[j], k.dataLimitUnit, metrics, convert));
      again.name == k.name && again.dataLimit == k.dataLimit
  {
  }

  /** The case of `SecondRunRewritesSameValues` where the second run's
      `find` for remote key `n` lands on row `i`. */
  lemma SecondRunHit(db: Db, serverId: nat, remote: seq<RemoteAccessKey>,
                     metrics: TransferMetrics, convert: Converter, i: nat, n: nat)
    requires ValidDb(db) && DistinctRemoteIds(remote)
    requires i < |SyncedAccessKeys(db, serverId, remote, metrics, convert).accessKeys| && n < |remote|
    requires var once := SyncedAccessKeys(db, serverId, remote, metrics, convert);
      var found := FindByApiId(OfServer(once.accessKeys, serverId), remote[n].id);
      found.Some? && found.value.id == once.accessKeys[i].id
    ensures var once := SyncedAccessKeys(db, serverId, remote, metrics, convert);
      var k := once.accessKeys[i];
      var again := PatchedByPass(k, OfServer(once.accessKeys, serverId), remote, metrics, convert);
      && again.name == k.name && again.dataLimit == k.dataLimit
      && (k.id < db.nextAccessKeyId ==> again == k)
  {
    var once := SyncedAccessKeys(db, serverId, remote, metrics, convert);
    var local := OfServer(db.accessKeys, serverId);
    var u := Unmatched(local, remote);
    var local2 := OfServer(once.accessKeys, serverId);
    var k := once.accessKeys[i];
    var r := remote[n];
    SyncedKeepsValid(db, serverId, remote, metrics, convert);
    var found := FindByApiId(local2, r.id).value;
    assert found in once.accessKeys && k in once.accessKeys;
    assert found == k;
    PatchedByPassHit(k, local2, remote, n, metrics, convert);
    SecondRunFind(db, serverId, remote, metrics, convert, r);
    var first := FindByApiId(local, r.id);
    if first.Some? {
      var x := first.value;
      PatchedByPassHit(x, local, remote, n, metrics, convert);
      RepatchPatched(x, r, metrics, convert);
    } else {
      var j :| 0 <= j < |u| && u[j] == r && k == CreatedRow(db, serverId, u, j, convert);
      RepatchCreated(db, serverId, u, j, metrics, convert);
    }
  }
}
