/**
  The inventory pass of a scan (app/scanner.py): one batched query and a dictionary that
  the loop keeps up to date, against looking every client up in the table.
 */
module Scanner {
  import opened Base
  import opened Tables
  import opened Mac
  import Alerts

  // A UniFi client object; `telemetry` holds the non-None telemetry fields.
  datatype Client = Client(
    mac: Option<string>,
    ip: Option<string>,
    hostname: Option<string>,
    site: Option<string>,
    ssid: Option<string>,
    apMac: Option<string>,
    oui: Option<string>,
    telemetry: Telemetry)

  datatype Report = Report(mac: string, client: Client)

  // scannedAt is `now` of the scan; startedAt and storedAt are the insertion times of its event rows.
  datatype Context = Context(startedAt: int, scannedAt: int, storedAt: int, vendors: map<string, string>)

  datatype Pass = Pass(db: Db, candidates: seq<nat>)

  // The clients with a usable MAC, in order.
  function Reports(clients: seq<Client>): seq<Report> {
    if clients == [] then []
    else
      var rest, c := Reports(clients[..|clients| - 1]), clients[|clients| - 1];
      var mac := NormalizeMac(c.mac);
      if mac.Some? then rest + [Report(mac.value, c)] else rest
  }

  function Vendor(vendors: map<string, string>, r: Report): Option<string> {
    var prefix := MacPrefix(r.mac);
    if prefix.Some? && prefix.value in vendors && vendors[prefix.value] != "" then Some(vendors[prefix.value])
    else r.client.oui
  }

  // `if value: device.field = value`
  function Newer(value: Option<string>, current: Option<string>): Option<string> {
    if value.Some? && value.value != "" then value else current
  }

  function Discover(r: Report, x: Context): Device {
    var c := r.client;
    Device(r.mac, Unknown, c.hostname, None, None, c.ip, Vendor(x.vendors, r), x.scannedAt, x.scannedAt,
           c.site, c.ssid, NormalizeMac(c.apMac), c.telemetry)
  }

  // A reported False or 0 replaces the old value; an absent field keeps it.
  function Refresh(d: Device, r: Report, x: Context): Device {
    var c := r.client;
    d.(lastSeen := x.scannedAt,
       hostname := Newer(c.hostname, d.hostname),
       ip := Newer(c.ip, d.ip),
       vendor := Newer(Vendor(x.vendors, r), d.vendor),
       site := Newer(c.site, d.site),
       ssid := Newer(c.ssid, d.ssid),
       apMac := Newer(NormalizeMac(c.apMac), d.apMac),
       telemetry := d.telemetry + c.telemetry)
  }

  function Observed(id: nat, r: Report, x: Context): Observation {
    var c := r.client;
    Observation(id, r.mac, c.ip, c.hostname, c.site, c.ssid, NormalizeMac(c.apMac), x.scannedAt)
  }

  function UpsertedRow(p: Pass, r: Report, x: Context, found: Option<nat>): Device
    requires found.Some? ==> found.value in p.db.devices
  {
    if found.Some? then Refresh(p.db.devices[found.value], r, x) else Discover(r, x)
  }

  // One client, given the row its MAC was found at.
  function Upsert(p: Pass, r: Report, x: Context, found: Option<nat>): Pass
    requires found.Some? ==> found.value in p.db.devices
  {
    var id := Slot(p.db.devices, found);
    var row := UpsertedRow(p, r, x, found);
    var events := if found.Some? then p.db.events else Insert(p.db.events, Event(Some(id), Discovered, x.storedAt));
    Pass(p.db.(devices := p.db.devices[id := row],
               observations := Insert(p.db.observations, Observed(id, r, x)),
               events := events),
         if row.status == Unknown then p.candidates + [id] else p.candidates)
  }

  /** The reference: every client is looked up by a query of its own. */
  ghost function NaivePass(db: Db, reports: seq<Report>, n: nat, x: Context): Pass
    requires n <= |reports|
  {
    if n == 0 then Pass(db, [])
    else
      var p := NaivePass(db, reports, n - 1, x);
      Upsert(p, reports[n - 1], x, FindByMac(p.db.devices, reports[n - 1].mac))
  }

  method PrepareReports(clients: seq<Client>) returns (reports: seq<Report>, macs: seq<string>, prefixes: set<string>)
    ensures reports == Reports(clients)
    ensures |macs| == |reports| && forall i | 0 <= i < |reports| :: macs[i] == reports[i].mac
    ensures forall r | r in reports && MacPrefix(r.mac).Some? :: MacPrefix(r.mac).value in prefixes
  {
    reports, macs, prefixes := [], [], {};
    for i := 0 to |clients|
      invariant reports == Reports(clients[..i])
      invariant |macs| == |reports| && forall k | 0 <= k < |reports| :: macs[k] == reports[k].mac
      invariant forall r | r in reports && MacPrefix(r.mac).Some? :: MacPrefix(r.mac).value in prefixes
    {
      assert clients[..i + 1][..i] == clients[..i];
      var mac := NormalizeMac(clients[i].mac);
      if mac.Some? {
        reports := reports + [Report(mac.value, clients[i])];
        macs := macs + [mac.value];
        var prefix := MacPrefix(mac.value);
        if prefix.Some? {
          prefixes := prefixes + {prefix.value};
        }
      }
    }
    assert clients[..|clients|] == clients;
  }

  /**
    The loop over the dictionary refines the reference, also when one scan reports a MAC
    several times.
   */
  method UpsertClients(s: Session, clients: seq<Client>, x: Context) returns (candidates: seq<nat>)
    requires UniqueMacs(s.db.devices)
    modifies s
    ensures Pass(s.db, candidates) == NaivePass(old(s.db), Reports(clients), |Reports(clients)|, x)
    ensures UniqueMacs(s.db.devices)
  {
    var reports, macs, prefixes := PrepareReports(clients);
    var devicesByMac: map<string, nat> := BatchLoadDevices(s.db.devices, macs);
    var ouiByPrefix := map p | p in prefixes && p in x.vendors :: x.vendors[p];
    forall i | 0 <= i < |reports| ensures Vendor(ouiByPrefix, reports[i]) == Vendor(x.vendors, reports[i]) {
      assert reports[i] in reports;
    }
    candidates := UpsertReports(s, reports, macs, devicesByMac, ouiByPrefix, x);
  }

  method UpsertReports(s: Session, reports: seq<Report>, macs: seq<string>, index: map<string, nat>,
                       ouiByPrefix: map<string, string>, x: Context)
    returns (candidates: seq<nat>)
    requires UniqueMacs(s.db.devices) && Indexes(index, s.db.devices, macs)
    requires |macs| == |reports| && forall i | 0 <= i < |reports| :: macs[i] == reports[i].mac
    requires forall i | 0 <= i < |reports| :: Vendor(ouiByPrefix, reports[i]) == Vendor(x.vendors, reports[i])
    modifies s
    ensures Pass(s.db, candidates) == NaivePass(old(s.db), reports, |reports|, x)
    ensures UniqueMacs(s.db.devices)
  {
    var devicesByMac := index;
    var p := Pass(s.db, []);
    for i := 0 to |reports|
      invariant p == NaivePass(old(s.db), reports, i, x) && s.db == p.db
      invariant UniqueMacs(p.db.devices)
      invariant Indexes(devicesByMac, p.db.devices, macs)
    {
      var r := reports[i];
      assert macs[i] in macs;
      BatchedStep(p, r, x, ouiByPrefix, devicesByMac, macs);
      var found := if r.mac in devicesByMac then Some(devicesByMac[r.mac]) else None;
      devicesByMac := NextIndex(devicesByMac, p.db.devices, r.mac);
      p := Upsert(p, r, x.(vendors := ouiByPrefix), found);
      s.db := p.db;
    }
    candidates := p.candidates;
  }

  lemma BatchedStep(p: Pass, r: Report, x: Context, vendors: map<string, string>, byMac: map<string, nat>,
      macs: seq<string>)
    requires UniqueMacs(p.db.devices) && Indexes(byMac, p.db.devices, macs) && r.mac in macs
    requires Vendor(vendors, r) == Vendor(x.vendors, r)
    ensures var found := if r.mac in byMac then Some(byMac[r.mac]) else None;
      var p' := Upsert(p, r, x, FindByMac(p.db.devices, r.mac));
      && Upsert(p, r, x.(vendors := vendors), found) == p'
      && UniqueMacs(p'.db.devices) && Indexes(NextIndex(byMac, p.db.devices, r.mac), p'.db.devices, macs)
  {
    hide UniqueMacs, Indexes;
    IndexAnswersQuery(byMac, p.db.devices, macs, r.mac);
    SameVendor(p, r, x, vendors, FindByMac(p.db.devices, r.mac));
    var row := UpsertedRow(p, r, x, FindByMac(p.db.devices, r.mac));
    PutKeepsUnique(p.db.devices, row);
    PutKeepsIndex(p.db.devices, row, byMac, macs);
  }

  lemma SameVendor(p: Pass, r: Report, x: Context, vendors: map<string, string>, found: Option<nat>)
    requires found.Some? ==> found.value in p.db.devices
    requires Vendor(vendors, r) == Vendor(x.vendors, r)
    ensures Upsert(p, r, x.(vendors := vendors), found) == Upsert(p, r, x, found)
  {
  }

  // ---------------------------------------------------------------- what one client changes

  // The columns that identify a row or belong to the operator.
  predicate Kept(d: Device, d': Device) {
    d'.mac == d.mac && d'.status == d.status && d'.displayName == d.displayName
    && d'.notes == d.notes && d'.firstSeen == d.firstSeen
  }

  ghost predicate Touches(p: Pass, p': Pass, r: Report, x: Context, id: nat) {
    && p'.db.devices.Keys == p.db.devices.Keys + {id}
    && (forall k | k in p.db.devices && k != id :: p'.db.devices[k] == p.db.devices[k])
    && p'.db.devices[id].mac == r.mac
    && (if id in p.db.devices then
          Kept(p.db.devices[id], p'.db.devices[id])
          && p'.db.devices[id].telemetry == p.db.devices[id].telemetry + r.client.telemetry
          && p'.db.events == p.db.events
        else
          (forall k | k in p.db.devices :: p.db.devices[k].mac != r.mac)
          && p'.db.devices[id].status == Unknown && p'.db.devices[id].telemetry == r.client.telemetry
          && p'.db.events == Insert(p.db.events, Event(Some(id), Discovered, x.storedAt)))
    && p'.db.observations == Insert(p.db.observations, Observed(id, r, x))
    && p'.db.audit == p.db.audit && p'.db.deliveries == p.db.deliveries
    && p'.candidates == if p'.db.devices[id].status == Unknown then p.candidates + [id] else p.candidates
  }

  lemma UpsertTouches(p: Pass, r: Report, x: Context)
    ensures var found := FindByMac(p.db.devices, r.mac);
      Touches(p, Upsert(p, r, x, found), r, x, Slot(p.db.devices, found))
  {
  }

  lemma PassStep(db: Db, reports: seq<Report>, n: nat, x: Context) returns (p: Pass, p': Pass, id: nat)
    requires 0 < n <= |reports|
    ensures p == NaivePass(db, reports, n - 1, x) && p' == NaivePass(db, reports, n, x)
    ensures Touches(p, p', reports[n - 1], x, id)
  {
    p, p' := NaivePass(db, reports, n - 1, x), NaivePass(db, reports, n, x);
    id := Slot(p.db.devices, FindByMac(p.db.devices, reports[n - 1].mac));
    UpsertTouches(p, reports[n - 1], x);
  }

  // ---------------------------------------------------------------- what a pass leaves behind

  ghost predicate Reported(reports: seq<Report>, n: nat, mac: string)
    requires n <= |reports|
  {
    exists i :: 0 <= i < n && reports[i].mac == mac
  }

  ghost predicate HasMac(devices: map<nat, Device>, mac: string) {
    exists id :: id in devices && devices[id].mac == mac
  }

  // No existing row changes its identity or the operator's columns.
  ghost predicate RowsKept(db: Db, db': Db) {
    && db'.audit == db.audit && db'.deliveries == db.deliveries
    && forall id | id in db.devices :: id in db'.devices && Kept(db.devices[id], db'.devices[id])
  }

  // New rows are unknown and carry a reported MAC; every reported MAC has a row.
  ghost predicate RowsAdded(db: Db, db': Db, reports: seq<Report>, n: nat)
    requires n <= |reports|
  {
    && (forall id | id in db'.devices && id !in db.devices ::
          db'.devices[id].status == Unknown && Reported(reports, n, db'.devices[id].mac))
    && (forall i | 0 <= i < n :: HasMac(db'.devices, reports[i].mac))
  }

  /**
    MACs stay unique, every reported MAC has a row afterwards, new rows are unknown, and no
    existing row changes its MAC, status, given name, notes or first sighting.
   */
  lemma {:induction false} PassPreserves(db: Db, reports: seq<Report>, n: nat, x: Context)
    requires UniqueMacs(db.devices) && n <= |reports|
    ensures UniqueMacs(NaivePass(db, reports, n, x).db.devices)
    ensures RowsKept(db, NaivePass(db, reports, n, x).db)
    ensures RowsAdded(db, NaivePass(db, reports, n, x).db, reports, n)
  {
    hide Touches, Upsert;
    if n > 0 {
      var p, p', id := PassStep(db, reports, n, x);
      PassPreserves(db, reports, n - 1, x);
      TouchKeepsRows(db, p, p', reports[n - 1], x, id);
      TouchAddsRow(db, p, p', reports, n, x, id);
    }
  }

  lemma TouchKeepsRows(db: Db, p: Pass, p': Pass, r: Report, x: Context, id: nat)
    requires Touches(p, p', r, x, id) && UniqueMacs(p.db.devices) && RowsKept(db, p.db)
    ensures UniqueMacs(p'.db.devices) && RowsKept(db, p'.db)
  {
  }

  lemma TouchAddsRow(db: Db, p: Pass, p': Pass, reports: seq<Report>, n: nat, x: Context, id: nat)
    requires 0 < n <= |reports| && Touches(p, p', reports[n - 1], x, id) && RowsAdded(db, p.db, reports, n - 1)
    ensures RowsAdded(db, p'.db, reports, n)
  {
    hide HasMac, Reported, Kept;
    forall k | k in p'.db.devices && k !in db.devices
      ensures p'.db.devices[k].status == Unknown && Reported(reports, n, p'.db.devices[k].mac)
    {
      TouchedRow(p, p', reports, n, x, id, k);
    }
    forall i | 0 <= i < n ensures HasMac(p'.db.devices, reports[i].mac) {
      TouchedHasMac(p, p', reports, n, x, id, i);
    }
  }

  lemma TouchedRow(p: Pass, p': Pass, reports: seq<Report>, n: nat, x: Context, id: nat, k: nat)
    requires 0 < n <= |reports| && Touches(p, p', reports[n - 1], x, id) && k in p'.db.devices
    ensures k !in p.db.devices ==> p'.db.devices[k].status == Unknown && Reported(reports, n, p'.db.devices[k].mac)
    ensures k in p.db.devices && p.db.devices[k].status == Unknown ==> p'.db.devices[k].status == Unknown
    ensures k in p.db.devices && Reported(reports, n - 1, p.db.devices[k].mac) ==>
      Reported(reports, n, p'.db.devices[k].mac)
  {
    assert k !in p.db.devices ==> reports[n - 1].mac == p'.db.devices[k].mac;
    if k in p.db.devices && Reported(reports, n - 1, p.db.devices[k].mac) {
      var i :| 0 <= i < n - 1 && reports[i].mac == p.db.devices[k].mac;
      assert p'.db.devices[k].mac == reports[i].mac;
    }
  }

  lemma TouchedHasMac(p: Pass, p': Pass, reports: seq<Report>, n: nat, x: Context, id: nat, i: nat)
    requires i < n <= |reports| && Touches(p, p', reports[n - 1], x, id)
    requires i < n - 1 ==> HasMac(p.db.devices, reports[i].mac)
    ensures HasMac(p'.db.devices, reports[i].mac)
  {
    if i < n - 1 {
      var k :| k in p.db.devices && p.db.devices[k].mac == reports[i].mac;
      assert k in p'.db.devices && p'.db.devices[k].mac == reports[i].mac;
    }
  }

  ghost predicate IsDiscovered(db: Db, id: nat, at: int) {
    exists e :: e in db.events && db.events[e] == Event(Some(id), Discovered, at)
  }

  ghost predicate Discoveries(db: Db, db': Db, at: int) {
    && (forall e | e in db.events :: e in db'.events && db'.events[e] == db.events[e])
    && (forall id | id in db'.devices && id !in db.devices :: IsDiscovered(db', id, at))
  }

  /** One observation per report, and one discovered event for each row that is new. */
  lemma {:induction false} PassCounts(db: Db, reports: seq<Report>, n: nat, x: Context)
    requires n <= |reports|
    ensures |NaivePass(db, reports, n, x).db.observations| == |db.observations| + n
    ensures |NaivePass(db, reports, n, x).db.events| - |db.events|
      == |NaivePass(db, reports, n, x).db.devices| - |db.devices|
    ensures Discoveries(db, NaivePass(db, reports, n, x).db, x.storedAt)
  {
    hide Touches, Upsert, Discoveries;
    if n > 0 {
      var p, p', id := PassStep(db, reports, n, x);
      PassCounts(db, reports, n - 1, x);
      TouchCounts(p, p', reports[n - 1], x, id);
      TouchDiscovers(db, p, p', reports[n - 1], x, id);
    } else {
      NothingDiscovered(db, x.storedAt);
    }
  }

  lemma NothingDiscovered(db: Db, at: int)
    ensures Discoveries(db, db, at)
  {
  }

  lemma TouchCounts(p: Pass, p': Pass, r: Report, x: Context, id: nat)
    requires Touches(p, p', r, x, id)
    ensures |p'.db.observations| == |p.db.observations| + 1
    ensures |p'.db.events| - |p.db.events| == |p'.db.devices| - |p.db.devices|
  {
    InsertLayout(p.db.observations, Observed(id, r, x));
    InsertLayout(p.db.events, Event(Some(id), Discovered, x.storedAt));
    if id in p.db.devices {
      assert p'.db.devices.Keys == p.db.devices.Keys;
    }
  }

  lemma TouchDiscovers(db: Db, p: Pass, p': Pass, r: Report, x: Context, id: nat)
    requires Touches(p, p', r, x, id) && Discoveries(db, p.db, x.storedAt)
    ensures Discoveries(db, p'.db, x.storedAt)
  {
    if id !in p.db.devices {
      assert p'.db.events[FreshId(p.db.events.Keys)] == Event(Some(id), Discovered, x.storedAt);
    }
    forall k | k in p'.db.devices && k !in db.devices ensures IsDiscovered(p'.db, k, x.storedAt) {
      if k in p.db.devices {
        assert IsDiscovered(p.db, k, x.storedAt);
        var j :| j in p.db.events && p.db.events[j] == Event(Some(k), Discovered, x.storedAt);
        assert p'.db.events[j] == p.db.events[j];
      }
    }
  }

  lemma InsertLayout<T>(table: map<nat, T>, row: T)
    ensures |Insert(table, row)| == |table| + 1
  {
    assert Insert(table, row).Keys == table.Keys + {FreshId(table.Keys)};
  }

  // ---------------------------------------------------------------- telemetry

  function Reading(t: Telemetry, f: Field): Option<Value> {
    if f in t then Some(t[f]) else None
  }

  // The last value among the first n reports of this MAC, else the value held before.
  ghost function LastReading(reports: seq<Report>, n: nat, mac: string, f: Field, before: Option<Value>): Option<Value>
    requires n <= |reports|
  {
    if n == 0 then before
    else if reports[n - 1].mac == mac
      && f in reports[n - 1].client.telemetry then Some(reports[n - 1].client.telemetry[f])
    else LastReading(reports, n - 1, mac, f, before)
  }

  ghost function ReadingBefore(db: Db, mac: string, f: Field): Option<Value> {
    match FindByMac(db.devices, mac)
    case None => None
    case Some(id) => Reading(db.devices[id].telemetry, f)
  }

  lemma {:induction false} Unreported(reports: seq<Report>, n: nat, mac: string, f: Field, before: Option<Value>)
    requires n <= |reports| && !Reported(reports, n, mac)
    ensures LastReading(reports, n, mac, f, before) == before
  {
    if n > 0 {
      assert !Reported(reports, n - 1, mac);
      Unreported(reports, n - 1, mac, f, before);
    }
  }

  /**
    Every telemetry field of every row ends as its last non-None report in this scan, False
    and 0 included, or keeps its old value.
   */
  lemma {:induction false} TelemetryIsLastReport(db: Db, reports: seq<Report>, n: nat, x: Context, id: nat, f: Field)
    requires UniqueMacs(db.devices) && n <= |reports| && id in NaivePass(db, reports, n, x).db.devices
    ensures var d := NaivePass(db, reports, n, x).db.devices[id];
      Reading(d.telemetry, f) == LastReading(reports, n, d.mac, f, ReadingBefore(db, d.mac, f))
  {
    hide Touches, Upsert, ReadingBefore, UniqueMacs, RowsKept, RowsAdded;
    if n > 0 {
      var p, p', target := PassStep(db, reports, n, x);
      PassPreserves(db, reports, n - 1, x);
      if id in p.db.devices {
        TelemetryIsLastReport(db, reports, n - 1, x, id, f);
        TouchReads(db, p, p', reports, n, x, target, id, f);
      } else {
        TouchReadsNew(db, p, p', reports, n, x, target, id, f);
      }
    } else {
      OwnReading(db, id, f);
    }
  }

  lemma OwnReading(db: Db, id: nat, f: Field)
    requires UniqueMacs(db.devices) && id in db.devices
    ensures ReadingBefore(db, db.devices[id].mac, f) == Reading(db.devices[id].telemetry, f)
  {
    assert FindByMac(db.devices, db.devices[id].mac) == Some(id);
  }

  lemma TouchReads(db: Db, p: Pass, p': Pass, reports: seq<Report>, n: nat, x: Context, target: nat, id: nat, f: Field)
    requires 0 < n <= |reports| && Touches(p, p', reports[n - 1], x, target) && UniqueMacs(p.db.devices)
    requires id in p.db.devices
    requires var mac := p.db.devices[id].mac;
      Reading(p.db.devices[id].telemetry, f) == LastReading(reports, n - 1, mac, f, ReadingBefore(db, mac, f))
    ensures id in p'.db.devices
    ensures var mac := p'.db.devices[id].mac;
      Reading(p'.db.devices[id].telemetry, f) == LastReading(reports, n, mac, f, ReadingBefore(db, mac, f))
  {
    if id != target {
      assert p'.db.devices[id] == p.db.devices[id];
      if target in p.db.devices {
        assert Kept(p.db.devices[target], p'.db.devices[target]);
      }
      assert p.db.devices[id].mac != reports[n - 1].mac;
    }
  }

  lemma TouchReadsNew(db: Db, p: Pass, p': Pass, reports: seq<Report>, n: nat, x: Context, target: nat, id: nat,
      f: Field)
    requires 0 < n <= |reports| && Touches(p, p', reports[n - 1], x, target)
    requires RowsKept(db, p.db) && RowsAdded(db, p.db, reports, n - 1)
    requires id in p'.db.devices && id !in p.db.devices
    ensures var mac := p'.db.devices[id].mac;
      Reading(p'.db.devices[id].telemetry, f) == LastReading(reports, n, mac, f, ReadingBefore(db, mac, f))
  {
    hide RowsKept, RowsAdded, Kept;
    assert id == target;
    NewRowHadNoReading(db, p.db, reports, n - 1, reports[n - 1].mac, f);
  }

  lemma NewRowHadNoReading(db: Db, db': Db, reports: seq<Report>, n: nat, mac: string, f: Field)
    requires n <= |reports| && RowsKept(db, db') && RowsAdded(db, db', reports, n)
    requires forall k | k in db'.devices :: db'.devices[k].mac != mac
    ensures LastReading(reports, n, mac, f, ReadingBefore(db, mac, f)) == None
  {
    assert FindByMac(db.devices, mac).None? by {
      forall k | k in db.devices ensures db.devices[k].mac != mac {
        assert Kept(db.devices[k], db'.devices[k]);
      }
    }
    forall i | 0 <= i < n ensures reports[i].mac != mac {
      assert HasMac(db'.devices, reports[i].mac);
    }
    Unreported(reports, n, mac, f, ReadingBefore(db, mac, f));
  }

  // ---------------------------------------------------------------- who may be alerted

  ghost predicate AlertCandidate(p: Pass, reports: seq<Report>, n: nat, id: nat)
    requires n <= |reports|
  {
    id in p.db.devices && p.db.devices[id].status == Unknown && Reported(reports, n, p.db.devices[id].mac)
  }

  /** The candidates for an alert are exactly the reported devices whose status is unknown. */
  lemma {:induction false} CandidatesAreUnknown(db: Db, reports: seq<Report>, n: nat, x: Context, id: nat)
    requires UniqueMacs(db.devices) && n <= |reports|
    ensures id in NaivePass(db, reports, n, x).candidates
      <==> AlertCandidate(NaivePass(db, reports, n, x), reports, n, id)
  {
    hide Touches, Upsert, RowsKept, RowsAdded, UniqueMacs;
    if n > 0 {
      var p, p', target := PassStep(db, reports, n, x);
      CandidatesAreUnknown(db, reports, n - 1, x, id);
      PassPreserves(db, reports, n - 1, x);
      TouchCandidates(p, p', reports, n, x, target, id);
    }
  }

  lemma TouchCandidates(p: Pass, p': Pass, reports: seq<Report>, n: nat, x: Context, target: nat, id: nat)
    requires 0 < n <= |reports| && Touches(p, p', reports[n - 1], x, target) && UniqueMacs(p.db.devices)
    requires id in p.candidates <==> AlertCandidate(p, reports, n - 1, id)
    ensures id in p'.candidates <==> AlertCandidate(p', reports, n, id)
  {
    if id == target {
      assert Reported(reports, n, reports[n - 1].mac);
    } else if id in p.db.devices {
      assert p'.db.devices[id] == p.db.devices[id];
      if target in p.db.devices {
        assert Kept(p.db.devices[target], p'.db.devices[target]);
      }
      assert p.db.devices[id].mac != reports[n - 1].mac;
      assert Reported(reports, n, p.db.devices[id].mac) <==> Reported(reports, n - 1, p.db.devices[id].mac);
    }
  }

  // ---------------------------------------------------------------- the whole inventory phase

  predicate FetchFailed(clients: seq<Client>, mockMode: bool) {
    clients == [] && !mockMode
  }

  function Started(db: Db, x: Context): Db {
    AddEvent(db, Event(None, ScanStarted, x.startedAt))
  }

  // The tables when the lock holder turns to delivering alerts.
  ghost function InventoryAfter(db: Db, clients: seq<Client>, mockMode: bool, x: Context): Db {
    if FetchFailed(clients, mockMode) then AddEvent(Started(db, x), Event(None, ScanFailed, x.storedAt))
    else
      var reports := Reports(clients);
      AddEvent(NaivePass(Started(db, x), reports, |reports|, x).db, Event(None, ScanFinished, x.storedAt))
  }

  // Due for an alert: reported in this scan, unknown, and no alert_sent within the cooldown.
  ghost predicate Due(db: Db, clients: seq<Client>, x: Context, cooldown: nat, id: nat) {
    var reports := Reports(clients);
    var p := NaivePass(Started(db, x), reports, |reports|, x);
    && AlertCandidate(p, reports, |reports|, id)
    && forall e | e in p.db.events && p.db.events[e].deviceId == Some(id) && p.db.events[e].kind == AlertSent ::
         p.db.events[e].at < x.scannedAt - cooldown
  }

  method ScanInventory(s: Session, clients: seq<Client>, mockMode: bool, x: Context, cooldown: nat)
    returns (intents: seq<nat>)
    requires UniqueMacs(s.db.devices)
    modifies s
    ensures s.db == InventoryAfter(old(s.db), clients, mockMode, x)
    ensures Distinct(intents)
    ensures forall id :: id in intents <==> !FetchFailed(clients, mockMode) && Due(old(s.db), clients, x, cooldown, id)
  {
    ghost var before := s.db;
    s.db := AddEvent(s.db, Event(None, ScanStarted, x.startedAt));
    if clients == [] && !mockMode {
      s.db := AddEvent(s.db, Event(None, ScanFailed, x.storedAt));
      return [];
    }
    var candidates := UpsertClients(s, clients, x);
    var cooldownIds := Alerts.InCooldown(s.db.events, candidates, x.scannedAt, cooldown);
    intents := Alerts.BuildIntents(candidates, cooldownIds);
    IntentsAreDue(before, clients, x, cooldown, Pass(s.db, candidates), intents);
    s.db := AddEvent(s.db, Event(None, ScanFinished, x.storedAt));
  }

  lemma IntentsAreDue(before: Db, clients: seq<Client>, x: Context, cooldown: nat, p: Pass, intents: seq<nat>)
    requires UniqueMacs(before.devices)
    requires p == NaivePass(Started(before, x), Reports(clients), |Reports(clients)|, x)
    requires forall id :: id in intents <==>
      id in p.candidates && id !in Alerts.InCooldown(p.db.events, p.candidates, x.scannedAt, cooldown)
    ensures forall id :: id in intents <==> Due(before, clients, x, cooldown, id)
  {
    hide NaivePass, AlertCandidate;
    forall id ensures id in intents <==> Due(before, clients, x, cooldown, id) {
      CandidatesAreUnknown(Started(before, x), Reports(clients), |Reports(clients)|, x, id);
    }
  }

  /** The inventory phase never touches the audit log, a status, or the operator's columns. */
  lemma InventoryPreserves(db: Db, clients: seq<Client>, mockMode: bool, x: Context)
    requires UniqueMacs(db.devices)
    ensures var db' := InventoryAfter(db, clients, mockMode, x);
      && UniqueMacs(db'.devices) && RowsKept(db, db')
      && forall id | id in db'.devices && id !in db.devices :: db'.devices[id].status == Unknown
  {
    if !FetchFailed(clients, mockMode) {
      PassPreserves(Started(db, x), Reports(clients), |Reports(clients)|, x);
    }
  }
}
