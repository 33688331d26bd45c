/** Records of the local store, shapes of the Outline management API, and
    the small wrappers the synchronisation script works with. */
module Definitions {

  datatype Option<T> = None | Some(value: T)

  /** Why a synchronisation step stopped: the client could not be built from
      the stored management JSON, a management API call failed, or the store
      was asked to update a record that does not exist. */
  datatype SyncError = ConfigError | RemoteError | RecordNotFound

  datatype Result<T> = Ok(value: T) | Err(error: SyncError)

  /** What a call of the script's async functions settles to. */
  datatype Outcome = Done | Failed(error: SyncError)

  /** The unit a user chose to display an access key's data limit in. */
  datatype DataLimitUnit = Bytes | Kilobytes | Megabytes | Gigabytes

  /** `convertDataLimitToUnit(bytes, unit)`: its body is not part of this
      model, so every operation takes it as a parameter and nothing is
      assumed about its scale. */
  type Converter = (nat, DataLimitUnit) -> nat

  /** A row of the local `Server` table. */
  datatype Server = Server(
    id: nat,
    apiId: string,
    name: string,
    hostnameOrIp: string,
    hostnameForNewAccessKeys: string,
    portForNewAccessKeys: nat,
    isMetricsEnabled: bool,
    totalDataUsage: nat,
    isAvailable: bool,
    version: string,
    apiUrl: string,
    managementJson: string,
    apiCreatedAt: int)

  /** A row of the local `AccessKey` table; `apiId` is nullable. */
  datatype AccessKey = AccessKey(
    id: nat,
    serverId: nat,
    apiId: Option<string>,
    name: string,
    prefix: Option<string>,
    expiresAt: Option<int>,
    dataLimit: Option<nat>,
    dataLimitUnit: DataLimitUnit,
    dataUsage: nat,
    accessUrl: string,
    cipherMethod: string,
    password: string,
    port: nat)

  /** The management API's server descriptor. */
  datatype ServerInfo = ServerInfo(
    name: string,
    serverId: string,
    metricsEnabled: bool,
    createdTimestampMs: int,
    version: string,
    portForNewAccessKeys: nat,
    hostnameForAccessKeys: string)

  /** The management API's transfer metrics: bytes per access key id. */
  datatype TransferMetrics = TransferMetrics(bytesTransferredByUserId: map<string, nat>)

  /** An access key as the management API lists it; an absent limit is `None`. */
  datatype RemoteAccessKey = RemoteAccessKey(
    id: string,
    name: string,
    password: string,
    port: nat,
    cipherMethod: string,
    accessUrl: string,
    dataLimitInBytes: Option<nat>)

  /** A management API client, given by what each of its three reads returns. */
  datatype ApiClient = ApiClient(
    server: Result<ServerInfo>,
    metricsTransfer: Result<TransferMetrics>,
    keys: Result<seq<RemoteAccessKey>>)

  /** `ApiClient.fromConfig`: builds a client from a server's management JSON or fails. */
  type ClientFactory = string -> Result<ApiClient>

  /** The contents of the local store. */
  datatype Db = Db(servers: seq<Server>, accessKeys: seq<AccessKey>, nextAccessKeyId: nat)

  /** Within one table, a row is determined by its id. */
  ghost predicate UniqueIds(rows: seq<AccessKey>)
  {
    forall a, b :: a in rows && b in rows && a.id == b.id ==> a == b
  }

  /** What the database guarantees of the access key table: `id` is its
      primary key, and every id is below the next autoincrement value. */
  ghost predicate ValidDb(db: Db)
  {
    && UniqueIds(db.accessKeys)
    && (forall a :: a in db.accessKeys ==> a.id < db.nextAccessKeyId)
  }

  /** The outcome of a synchronisation step together with the store it leaves. */
  datatype Step = Step(outcome: Outcome, db: Db)
}
