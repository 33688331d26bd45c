/** The keyed diff between one server's local access key rows and the keys
    the management API lists: an update/create pass over the remote keys,
    then a delete pass over the rows that were loaded before it. */
module KeyReconciler {
  import opened Definitions

  /** The limit written for a remote key (lines 47-51): the remote byte count
      converted into `unit`, or null when the remote limit is absent or zero
      (the test is a truthiness test). */
  function LimitFor(limitInBytes: Option<nat>, unit: DataLimitUnit, convert: Converter): (limit: Option<nat>)
    ensures limit.None? <==> limitInBytes.None? || limitInBytes.value == 0
    ensures limit.Some? ==> limit.value == convert(limitInBytes.value, unit)
  {
    if limitInBytes.Some? && limitInBytes.value != 0 then Some(convert(limitInBytes.value, unit)) else None
  }

  /** `metrics.bytesTransferredByUserId[id]`, `None` standing for `undefined`. */
  function UsageOf(metrics: TransferMetrics, id: string): (usage: Option<nat>)
  {
    if id in metrics.bytesTransferredByUserId then Some(metrics.bytesTransferredByUserId[id]) else None
  }

  /** `localAccessKeys.find(k => k.apiId === id)`: the first row whose
      `apiId` is `id`, if any. */
  function FindByApiId(local: seq<AccessKey>, id: string): (found: Option<AccessKey>)
    ensures found.None? <==> forall k :: k in local ==> k.apiId != Some(id)
    ensures found.Some? ==>
      exists i :: 0 <= i < |local| && local[i] == found.value && found.value.apiId == Some(id) &&
        forall j :: 0 <= j < i ==> local[j].apiId != Some(id)
  {
    if local == [] then None
    else if local[0].apiId == Some(id) then Some(local[0])
    else
      var found := FindByApiId(local[1..], id);
      assert forall k :: k in local[1..] ==> k in local;
      assert forall k :: k in local ==> k == local[0] || k in local[1..];
      assert found.Some? ==>
        exists i :: 0 <= i < |local| && local[i] == found.value && found.value.apiId == Some(id) &&
          forall j :: 0 <= j < i ==> local[j].apiId != Some(id)
      by {
        if found.Some? {
          var i :| 0 <= i < |local[1..]| && local[1..][i] == found.value && found.value.apiId == Some(id) &&
            forall j :: 0 <= j < i ==> local[1..][j].apiId != Some(id);
          assert local[i + 1] == found.value;
          forall j | 0 <= j < i + 1 ensures local[j].apiId != Some(id) {
            if j > 0 { assert local[j] == local[1..][j - 1]; }
          }
        }
      }
      found
  }

  /** `remoteAccessKeys.find(r => r.id === apiId)` finds something; a null
      `apiId` equals no remote id. */
  function HasRemoteId(remote: seq<RemoteAccessKey>, apiId: Option<string>): (found: bool)
    ensures found <==> exists r :: r in remote && apiId == Some(r.id)
  {
    if remote == [] then false
    else
      assert forall r :: r in remote <==> r == remote[0] || r in remote[1..];
      apiId == Some(remote[0].id) || HasRemoteId(remote[1..], apiId)
  }

  /** The fields `prisma.accessKey.update` writes on a matched row
      (lines 59-63); a `None` usage is `undefined`, which leaves the column as is. */
  datatype KeyPatch = KeyPatch(name: string, dataLimit: Option<nat>, dataUsage: Option<nat>)

  function Patched(k: AccessKey, patch: KeyPatch): (patched: AccessKey)
  {
    k.(name := patch.name,
       dataLimit := patch.dataLimit,
       dataUsage := if patch.dataUsage.Some? then patch.dataUsage.value else k.dataUsage)
  }

  /** The patch for remote key `r` matched with a row whose unit is `unit`. */
  function PatchFor(r: RemoteAccessKey, unit: DataLimitUnit, metrics: TransferMetrics, convert: Converter): (patch: KeyPatch)
  {
    KeyPatch(r.name, LimitFor(r.dataLimitInBytes, unit, convert), UsageOf(metrics, r.id))
  }

  /** `prisma.accessKey.update({ where: { id }, data })`. */
  function UpdateById(rows: seq<AccessKey>, id: nat, patch: KeyPatch): (updated: seq<AccessKey>)
  {
    seq(|rows|, i requires 0 <= i < |rows| => if rows[i].id == id then Patched(rows[i], patch) else rows[i])
  }

  /** The row `prisma.accessKey.create` inserts for an unmatched remote key
      (lines 70-82). The schema's default for `dataUsage` is taken to be 0. */
  function NewAccessKey(id: nat, serverId: nat, r: RemoteAccessKey, dataLimit: Option<nat>): (created: AccessKey)
  {
    AccessKey(id, serverId, Some(r.id), r.name, None, None, dataLimit, Bytes, 0,
              r.accessUrl, r.cipherMethod, r.password, r.port)
  }

  /** `prisma.accessKey.findMany({ where: { serverId } })`, in table order. */
  function OfServer(rows: seq<AccessKey>, serverId: nat): (local: seq<AccessKey>)
    ensures forall k :: k in local <==> k in rows && k.serverId == serverId
  {
    if rows == [] then []
    else
      assert forall k :: k in rows <==> k == rows[0] || k in rows[1..];
      (if rows[0].serverId == serverId then [rows[0]] else []) + OfServer(rows[1..], serverId)
  }

  /** One iteration of the loop over remote keys (lines 44-84). */
  function ApplyRemoteKey(db: Db, local: seq<AccessKey>, serverId: nat, r: RemoteAccessKey,
                          metrics: TransferMetrics, convert: Converter): (after: Db)
  {
    var found := FindByApiId(local, r.id);
    var unit := if found.Some? then found.value.dataLimitUnit else Bytes;
    var limit := LimitFor(r.dataLimitInBytes, unit, convert);
    if found.Some? then
      db.(accessKeys := UpdateById(db.accessKeys, found.value.id, KeyPatch(r.name, limit, UsageOf(metrics, r.id))))
    else
      db.(accessKeys := db.accessKeys + [NewAccessKey(db.nextAccessKeyId, serverId, r, limit)],
          nextAccessKeyId := db.nextAccessKeyId + 1)
  }

  /** The update/create pass over `remote`, in order (lines 43-85). */
  function UpdateCreatePass(db: Db, local: seq<AccessKey>, serverId: nat, remote: seq<RemoteAccessKey>,
                            metrics: TransferMetrics, convert: Converter): (after: Db)
    decreases |remote|
  {
    if remote == [] then db
    else
      var before := UpdateCreatePass(db, local, serverId, remote[..|remote| - 1], metrics, convert);
      ApplyRemoteKey(before, local, serverId, remote[|remote| - 1], metrics, convert)
  }

  /** `localAccessKeysToRemove`: the ids of the loaded rows whose `apiId`
      matches no remote key, in the order they were loaded (lines 89-98). */
  function KeysToRemove(local: seq<AccessKey>, remote: seq<RemoteAccessKey>): (ids: seq<nat>)
    ensures forall id :: id in ids <==> exists k :: k in local && k.id == id && !HasRemoteId(remote, k.apiId)
    decreases |local|
  {
    if local == [] then []
    else
      var last := local[|local| - 1];
      assert forall k :: k in local <==> k in local[..|local| - 1] || k == last;
      KeysToRemove(local[..|local| - 1], remote) + (if HasRemoteId(remote, last.apiId) then [] else [last.id])
  }

  /** `prisma.accessKey.deleteMany({ where: { id: { in: ids } } })`. */
  function RemoveIds(rows: seq<AccessKey>, ids: seq<nat>): (kept: seq<AccessKey>)
    ensures forall k :: k in kept <==> k in rows && k.id !in ids
  {
    if rows == [] then []
    else
      assert forall k :: k in rows <==> k == rows[0] || k in rows[1..];
      (if rows[0].id in ids then [] else [rows[0]]) + RemoveIds(rows[1..], ids)
  }

  /** The delete pass: nothing is deleted when the list is empty (lines 100-112). */
  function DeletePass(db: Db, local: seq<AccessKey>, remote: seq<RemoteAccessKey>): (after: Db)
  {
    var ids := KeysToRemove(local, remote);
    if |ids| > 0 then db.(accessKeys := RemoveIds(db.accessKeys, ids)) else db
  }

  /** The store after `syncAccessKeys` has run against the remote key list
      `remote`: the rows of `serverId` are loaded first, then both passes run. */
  function SyncedAccessKeys(db: Db, serverId: nat, remote: seq<RemoteAccessKey>,
                            metrics: TransferMetrics, convert: Converter): (after: Db)
  {
    var local := OfServer(db.accessKeys, serverId);
    DeletePass(UpdateCreatePass(db, local, serverId, remote, metrics, convert), local, remote)
  }

  /** `syncAccessKeys` (lines 32-113): a failed key listing rejects before
      any row is written. */
  function AccessKeysSynced(db: Db, keys: Result<seq<RemoteAccessKey>>, serverId: nat,
                            metrics: TransferMetrics, convert: Converter): (step: Step)
  {
    match keys
    case Err(e) => Step(Failed(e), db)
    case Ok(remote) => Step(Done, SyncedAccessKeys(db, serverId, remote, metrics, convert))
  }

  /** Row `k` after the update/create pass: every remote key whose `find`
      returned a row with `k`'s id has patched it, the last one last. */
  function PatchedByPass(k: AccessKey, local: seq<AccessKey>, remote: seq<RemoteAccessKey>,
                         metrics: TransferMetrics, convert: Converter): (patched: AccessKey)
    decreases |remote|
  {
    if remote == [] then k
    else
      var before := PatchedByPass(k, local, remote[..|remote| - 1], metrics, convert);
      var r := remote[|remote| - 1];
      match FindByApiId(local, r.id)
      case Some(x) => if x.id == k.id then Patched(before, PatchFor(r, x.dataLimitUnit, metrics, convert)) else before
      case None => before
  }

  /** The remote keys that match no loaded row, in remote order. */
  function Unmatched(local: seq<AccessKey>, remote: seq<RemoteAccessKey>): (unmatched: seq<RemoteAccessKey>)
    ensures forall r :: r in unmatched <==> r in remote && FindByApiId(local, r.id).None?
    decreases |remote|
  {
    if remote == [] then []
    else
      var last := remote[|remote| - 1];
      assert forall r :: r in remote <==> r in remote[..|remote| - 1] || r == last;
      Unmatched(local, remote[..|remote| - 1]) + (if FindByApiId(local, last.id).None? then [last] else [])
  }
}
