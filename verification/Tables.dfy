/**
  The database tables of NetWatcher, one finite map from primary key to row per
  table (the audit log is a sequence: it is only ever appended to).
  A Session stands for the SQLAlchemy session that every operation receives.
 */
module Tables {
  import opened Base

  datatype Status = Unknown | Trusted | Ignored | Blocked

  // The telemetry columns of a device row.
  datatype Field =
    | Name | IsWired | RadioProto | Channel | Rssi | Satisfaction | TxRate | RxRate
    | TxBytes | RxBytes | SwPort | DevCat | DevFamily | DevVendor | OsName

  // A value other than None; False and 0 are ordinary values.
  datatype Value = BoolValue(b: bool) | IntValue(n: int) | TextValue(s: string)

  // A field that is absent holds None.
  type Telemetry = map<Field, Value>

  datatype Device = Device(
    mac: string,
    status: Status,
    hostname: Option<string>,
    displayName: Option<string>,
    notes: Option<string>,
    ip: Option<string>,
    vendor: Option<string>,
    firstSeen: int,
    lastSeen: int,
    site: Option<string>,
    ssid: Option<string>,
    apMac: Option<string>,
    telemetry: Telemetry)

  datatype Observation = Observation(
    deviceId: nat,
    mac: string,
    ip: Option<string>,
    hostname: Option<string>,
    site: Option<string>,
    ssid: Option<string>,
    apMac: Option<string>,
    seenAt: int)

  datatype EventKind =
    | Discovered | AlertQueued | AlertSent | AlertFailed
    | DeviceAction(action: Action) | DeviceDeleted
    | ScanStarted | ScanFailed | ScanFinished | ImportTrusted | RetentionRun

  datatype Event = Event(deviceId: Option<nat>, kind: EventKind, at: int)

  datatype Delivery = Delivery(eventId: nat, channelId: nat, success: bool)

  datatype Action = Trust | Ignore | Reset | Rename | Notes | Block | Unblock | Delete

  // `recorded` is the previous_status (for Delete: the status) kept in details_json.
  datatype AuditRow = AuditRow(action: Action, target: nat, recorded: Option<Status>)

  datatype Db = Db(
    devices: map<nat, Device>,
    observations: map<nat, Observation>,
    events: map<nat, Event>,
    deliveries: map<nat, Delivery>,
    audit: seq<AuditRow>)

  const EMPTY_DB := Db(map[], map[], map[], map[], [])

  const SECONDS_PER_DAY: nat := 86400

  // The foreign key of deliveries: each points at an existing event.
  ghost predicate NoOrphans(events: map<nat, Event>, deliveries: map<nat, Delivery>) {
    forall d | d in deliveries :: deliveries[d].eventId in events
  }

  class Session {
    var db: Db

    constructor (db: Db)
      ensures this.db == db
    {
      this.db := db;
    }
  }

  lemma MaxExists(keys: set<nat>)
    requires keys != {}
    ensures exists k :: k in keys && forall j | j in keys :: j <= k
  {
    var k :| k in keys;
    if keys != {k} {
      var rest := keys - {k};
      assert keys == rest + {k};
      MaxExists(rest);
      var m :| m in rest && forall j | j in rest :: j <= m;
      var top := if k <= m then m else k;
      assert top in keys && forall j | j in keys :: j <= top;
    }
  }

  function MaxKey(keys: set<nat>): (m: nat)
    requires keys != {}
    ensures m in keys && forall j | j in keys :: j <= m
  {
    MaxExists(keys);
    var k :| k in keys && forall j | j in keys :: j <= k;
    k
  }

  /**
    SQLite's choice for an INTEGER PRIMARY KEY without AUTOINCREMENT: one more than
    the largest id in use, so the id of a deleted row can be given out again.
   */
  function FreshId(keys: set<nat>): (id: nat)
    ensures id !in keys
    ensures forall k | k in keys :: k < id
  {
    if keys == {} then 1 else MaxKey(keys) + 1
  }

  function Insert<T>(table: map<nat, T>, row: T): map<nat, T> {
    table[FreshId(table.Keys) := row]
  }

  function AddEvent(db: Db, e: Event): Db {
    db.(events := Insert(db.events, e))
  }

  /** `after` is `before` with these rows inserted one after the other: consecutive new ids, nothing else touched. */
  ghost predicate Extends<T>(after: map<nat, T>, before: map<nat, T>, rows: seq<T>) {
    var first := FreshId(before.Keys);
    && FreshId(after.Keys) == first + |rows|
    && (forall id :: id in after <==> id in before || first <= id < first + |rows|)
    && (forall id | id in before :: after[id] == before[id])
    && (forall k: nat | k < |rows| :: after[first + k] == rows[k])
  }

  ghost function Range(lo: nat, n: nat): (r: set<nat>)
    ensures forall x :: x in r <==> lo <= x < lo + n
    ensures |r| == n
  {
    if n == 0 then {} else Range(lo, n - 1) + {lo + n - 1}
  }

  lemma ExtendsSize<T>(after: map<nat, T>, before: map<nat, T>, rows: seq<T>)
    requires Extends(after, before, rows)
    ensures |after| == |before| + |rows|
  {
    var added := Range(FreshId(before.Keys), |rows|);
    assert after.Keys == before.Keys + added;
    assert before.Keys !! added;
  }

  lemma ExtendsNone<T>(table: map<nat, T>)
    ensures Extends(table, table, [])
  {
  }

  lemma ExtendsOnce<T>(mid: map<nat, T>, before: map<nat, T>, rows: seq<T>, row: T)
    requires Extends(mid, before, rows)
    ensures Extends(Insert(mid, row), before, rows + [row])
  {
    var after := Insert(mid, row);
    assert after.Keys == mid.Keys + {FreshId(mid.Keys)};
    assert FreshId(after.Keys) == FreshId(mid.Keys) + 1;
  }

  lemma ExtendsTwice<T>(mid: map<nat, T>, before: map<nat, T>, after: map<nat, T>, a: seq<T>, b: seq<T>)
    requires Extends(mid, before, a) && Extends(after, mid, b)
    ensures Extends(after, before, a + b)
  {
    var first := FreshId(before.Keys);
    forall k: nat | k < |a + b|
      ensures after[first + k] == (a + b)[k]
    {
      if k < |a| {
        assert first + k in mid && mid[first + k] == a[k];
      } else {
        assert after[FreshId(mid.Keys) + (k - |a|)] == b[k - |a|];
      }
    }
  }

  // The id of a device row with this MAC (Device.mac is UNIQUE: there is at most one).
  ghost function FindByMac(devices: map<nat, Device>, mac: string): (r: Option<nat>)
    ensures r.Some? ==> r.value in devices && devices[r.value].mac == mac
    ensures r.None? ==> forall id | id in devices :: devices[id].mac != mac
  {
    if exists id :: id in devices && devices[id].mac == mac then
      var id :| id in devices && devices[id].mac == mac; Some(id)
    else None
  }

  ghost predicate UniqueMacs(devices: map<nat, Device>) {
    forall a, b | a in devices && b in devices && devices[a].mac == devices[b].mac :: a == b
  }

  /** The dictionary that scan and import build answers exactly like a query by MAC. */
  ghost predicate Indexes(byMac: map<string, nat>, devices: map<nat, Device>, macs: seq<string>) {
    && (forall m | m in byMac :: byMac[m] in devices && devices[byMac[m]].mac == m)
    && (forall m, id | m in macs && id in devices && devices[id].mac == m :: m in byMac)
  }

  lemma IndexAnswersQuery(byMac: map<string, nat>, devices: map<nat, Device>, macs: seq<string>, mac: string)
    requires UniqueMacs(devices) && Indexes(byMac, devices, macs) && mac in macs
    ensures FindByMac(devices, mac) == if mac in byMac then Some(byMac[mac]) else None
  {
  }

  // Where a row with this MAC is written: over the row that has it, or at a fresh id.
  function Slot(devices: map<nat, Device>, found: Option<nat>): nat {
    if found.Some? then found.value else FreshId(devices.Keys)
  }

  // existing[mac] = device, for a device that was not there
  function NextIndex(byMac: map<string, nat>, devices: map<nat, Device>, mac: string): map<string, nat> {
    if mac in byMac then byMac else byMac[mac := FreshId(devices.Keys)]
  }

  lemma PutKeepsUnique(devices: map<nat, Device>, row: Device)
    requires UniqueMacs(devices)
    ensures UniqueMacs(devices[Slot(devices, FindByMac(devices, row.mac)) := row])
  {
  }

  lemma PutKeepsIndex(devices: map<nat, Device>, row: Device, byMac: map<string, nat>, macs: seq<string>)
    requires UniqueMacs(devices) && Indexes(byMac, devices, macs) && row.mac in macs
    ensures Indexes(NextIndex(byMac, devices, row.mac), devices[Slot(devices, FindByMac(devices, row.mac)) := row],
      macs)
  {
    IndexAnswersQuery(byMac, devices, macs, row.mac);
  }

  /**
    One query for all MACs of a batch, turned into a dictionary row by row.
   */
  method BatchLoadDevices(devices: map<nat, Device>, macs: seq<string>) returns (byMac: map<string, nat>)
    ensures Indexes(byMac, devices, macs)
    ensures forall m | m in byMac :: m in macs
  {
    byMac := map[];
    var todo := devices.Keys;
    while todo != {}
      invariant todo <= devices.Keys
      invariant forall m | m in byMac :: m in macs && byMac[m] in devices && devices[byMac[m]].mac == m
      invariant forall id | id in devices.Keys - todo :: devices[id].mac in macs ==> devices[id].mac in byMac
      decreases |todo|
    {
      var id :| id in todo;
      todo := todo - {id};
      if devices[id].mac in macs {
        byMac := byMac[devices[id].mac := id];
      }
    }
  }
}
