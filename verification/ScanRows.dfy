/** What a scan writes, column by column, in terms of what the controller reported (app/scanner.py). */
module ScanRows {
  import opened Base
  import opened Tables
  import opened Mac
  import opened Scanner

  datatype Column = Hostname | Address | Site | Ssid | AccessPoint | VendorName

  function ValueOf(d: Device, c: Column): Option<string> {
    match c
    case Hostname => d.hostname
    case Address => d.ip
    case Site => d.site
    case Ssid => d.ssid
    case AccessPoint => d.apMac
    case VendorName => d.vendor
  }

  // What one report says of a column; the vendor table goes before the controller's own vendor name.
  function Given(r: Report, x: Context, c: Column): Option<string> {
    match c
    case Hostname => r.client.hostname
    case Address => r.client.ip
    case Site => r.client.site
    case Ssid => r.client.ssid
    case AccessPoint => NormalizeMac(r.client.apMac)
    case VendorName =>
      if |r.mac| >= 8 && r.mac[..8] in x.vendors && x.vendors[r.mac[..8]] != "" then Some(x.vendors[r.mac[..8]])
      else r.client.oui
  }

  predicate Says(value: Option<string>) {
    value.Some? && value.value != ""
  }

  // Report i is the last of the first n that says something of this column for this address.
  ghost predicate LastSaid(reports: seq<Report>, n: nat, x: Context, mac: string, c: Column, i: nat)
    requires n <= |reports|
  {
    && i < n && reports[i].mac == mac && Says(Given(reports[i], x, c))
    && forall j | i < j < n && reports[j].mac == mac :: !Says(Given(reports[j], x, c))
  }

  ghost predicate NeverSaid(reports: seq<Report>, n: nat, x: Context, mac: string, c: Column)
    requires n <= |reports|
  {
    forall j | 0 <= j < n && reports[j].mac == mac :: !Says(Given(reports[j], x, c))
  }

  ghost predicate FirstOf(reports: seq<Report>, n: nat, mac: string, i: nat)
    requires n <= |reports|
  {
    i < n && reports[i].mac == mac && forall j | 0 <= j < i :: reports[j].mac != mac
  }

  // The observation of one report.
  ghost predicate Records(o: Observation, r: Report, x: Context) {
    && o.mac == r.mac && o.ip == r.client.ip && o.hostname == r.client.hostname && o.site == r.client.site
    && o.ssid == r.client.ssid && o.apMac == NormalizeMac(r.client.apMac) && o.seenAt == x.scannedAt
  }

  // The row of the report's address after that report.
  ghost predicate Wrote(p: Pass, p': Pass, r: Report, x: Context, id: nat) {
    && p'.db.devices.Keys == p.db.devices.Keys + {id} && p'.db.devices[id].mac == r.mac
    && (id !in p.db.devices ==> forall k | k in p.db.devices :: p.db.devices[k].mac != r.mac)
    && (id in p.db.devices ==> p.db.devices[id].mac == r.mac)
    && (forall k | k in p.db.devices && k != id :: p'.db.devices[k] == p.db.devices[k])
  }

  ghost predicate WroteColumns(p: Pass, p': Pass, r: Report, x: Context, id: nat) {
    && id in p'.db.devices
    && var d := p'.db.devices[id];
    && d.lastSeen == x.scannedAt
    && (forall c :: ValueOf(d, c) ==
          if id !in p.db.devices || Says(Given(r, x, c)) then Given(r, x, c) else ValueOf(p.db.devices[id], c))
    && (id !in p.db.devices ==>
          d.firstSeen == x.scannedAt && d.displayName == None && d.notes == None && d.telemetry == r.client.telemetry)
  }

  ghost predicate WroteObservation(p: Pass, p': Pass, r: Report, x: Context, id: nat) {
    var o := FreshId(p.db.observations.Keys);
    && o in p'.db.observations
    && p'.db.observations == Insert(p.db.observations, p'.db.observations[o])
    && p'.db.observations[o].deviceId == id && Records(p'.db.observations[o], r, x)
  }

  lemma UpsertWrites(p: Pass, r: Report, x: Context)
    ensures var found := FindByMac(p.db.devices, r.mac);
      var p', id := Upsert(p, r, x, found), Slot(p.db.devices, found);
      Wrote(p, p', r, x, id) && WroteColumns(p, p', r, x, id) && WroteObservation(p, p', r, x, id)
  {
    hide NormalizeMac, FindByMac, UpsertedRow, Observed, WroteColumns, WroteObservation;
    UpsertsColumns(p, r, x);
    UpsertsObservation(p, r, x);
    assert UpsertedRow(p, r, x, FindByMac(p.db.devices, r.mac)).mac == r.mac by { UpsertsMac(p, r, x); }
  }

  lemma UpsertsMac(p: Pass, r: Report, x: Context)
    ensures UpsertedRow(p, r, x, FindByMac(p.db.devices, r.mac)).mac == r.mac
  {
    hide NormalizeMac;
  }

  lemma RefreshColumn(d: Device, r: Report, x: Context, c: Column)
    ensures ValueOf(Refresh(d, r, x), c) == if Says(Given(r, x, c)) then Given(r, x, c) else ValueOf(d, c)
    ensures Refresh(d, r, x).lastSeen == x.scannedAt
  {
    hide NormalizeMac;
  }

  lemma DiscoverColumn(r: Report, x: Context, c: Column)
    ensures ValueOf(Discover(r, x), c) == Given(r, x, c)
    ensures var d := Discover(r, x);
      && d.lastSeen == x.scannedAt && d.firstSeen == x.scannedAt && d.displayName == None && d.notes == None
      && d.telemetry == r.client.telemetry
  {
    hide NormalizeMac;
  }

  lemma UpsertsColumns(p: Pass, r: Report, x: Context)
    ensures var found := FindByMac(p.db.devices, r.mac);
      WroteColumns(p, Upsert(p, r, x, found), r, x, Slot(p.db.devices, found))
  {
    hide FindByMac, Insert, Refresh, Discover, ValueOf, Given, Says, Observed;
    var found := FindByMac(p.db.devices, r.mac);
    assert Upsert(p, r, x, found).db.devices[Slot(p.db.devices, found)] == UpsertedRow(p, r, x, found);
    if found.Some? {
      RefreshColumn(p.db.devices[found.value], r, x, Hostname);
      forall c { RefreshColumn(p.db.devices[found.value], r, x, c); }
    } else {
      DiscoverColumn(r, x, Hostname);
      forall c { DiscoverColumn(r, x, c); }
    }
  }

  lemma UpsertsObservation(p: Pass, r: Report, x: Context)
    ensures var found := FindByMac(p.db.devices, r.mac);
      WroteObservation(p, Upsert(p, r, x, found), r, x, Slot(p.db.devices, found))
  {
    hide NormalizeMac, FindByMac, UpsertedRow;
  }

  lemma PassWrites(db: Db, reports: seq<Report>, n: nat, x: Context) returns (p: Pass, p': Pass, id: nat)
    requires 0 < n <= |reports|
    ensures p == NaivePass(db, reports, n - 1, x) && p' == NaivePass(db, reports, n, x)
    ensures Wrote(p, p', reports[n - 1], x, id) && WroteColumns(p, p', reports[n - 1], x, id)
    ensures WroteObservation(p, p', reports[n - 1], x, id)
  {
    hide Upsert, Wrote, WroteColumns, WroteObservation;
    p, p' := NaivePass(db, reports, n - 1, x), NaivePass(db, reports, n, x);
    id := Slot(p.db.devices, FindByMac(p.db.devices, reports[n - 1].mac));
    UpsertWrites(p, reports[n - 1], x);
  }

  // ---------------------------------------------------------------- devices

  // What the first n reports make of a column of row id.
  ghost predicate ColumnFits(db: Db, reports: seq<Report>, n: nat, x: Context, id: nat, d: Device, c: Column)
    requires n <= |reports|
  {
    && (forall i: nat | LastSaid(reports, n, x, d.mac, c, i) :: ValueOf(d, c) == Given(reports[i], x, c))
    && (NeverSaid(reports, n, x, d.mac, c) ==>
          if id in db.devices then ValueOf(d, c) == ValueOf(db.devices[id], c)
          else forall i: nat | FirstOf(reports, n, d.mac, i) :: ValueOf(d, c) == Given(reports[i], x, c))
  }

  /**
    Host name, address, site, network name, access point and vendor of every row end as the last
    non-empty value reported for its MAC in this scan. If there is none, a known device keeps its
    value, and a new one has what its first report gave.
   */
  lemma {:induction false} ColumnIsLastReport(db: Db, reports: seq<Report>, n: nat, x: Context, id: nat, c: Column)
    requires UniqueMacs(db.devices) && n <= |reports| && id in NaivePass(db, reports, n, x).db.devices
    ensures ColumnFits(db, reports, n, x, id, NaivePass(db, reports, n, x).db.devices[id], c)
  {
    hide NaivePass, ColumnFits, Wrote, WroteColumns, WroteObservation, RowsKept, RowsAdded, UniqueMacs;
    if n == 0 {
      NothingWritten(db, reports, x, id, c);
    } else {
      var p, p', target := PassWrites(db, reports, n, x);
      PassPreserves(db, reports, n - 1, x);
      if id in p.db.devices {
        ColumnIsLastReport(db, reports, n - 1, x, id, c);
        KnownColumn(db, p, p', reports, n, x, target, id, c);
      } else {
        NewColumn(db, p, p', reports, n, x, target, id, c);
      }
    }
  }

  lemma NothingWritten(db: Db, reports: seq<Report>, x: Context, id: nat, c: Column)
    requires id in NaivePass(db, reports, 0, x).db.devices
    ensures ColumnFits(db, reports, 0, x, id, NaivePass(db, reports, 0, x).db.devices[id], c)
  {
  }

  lemma KnownColumn(db: Db, p: Pass, p': Pass, reports: seq<Report>, n: nat, x: Context, target: nat, id: nat,
      c: Column)
    requires 0 < n <= |reports| && Wrote(p, p', reports[n - 1], x, target)
      && WroteColumns(p, p', reports[n - 1], x, target)
    requires UniqueMacs(p.db.devices) && id in p.db.devices
    requires ColumnFits(db, reports, n - 1, x, id, p.db.devices[id], c) && RowsAdded(db, p.db, reports, n - 1)
    ensures ColumnFits(db, reports, n, x, id, p'.db.devices[id], c)
  {
    hide Given, Says, ValueOf, ColumnFits, UniqueMacs;
    var d, d', said := p.db.devices[id], p'.db.devices[id], reports[n - 1].mac == p.db.devices[id].mac;
    if id == target {
      assert said && ValueOf(d', c) == if Says(Given(reports[n - 1], x, c)) then Given(reports[n - 1], x, c)
        else ValueOf(d, c);
    } else {
      assert d' == d && !said by { OtherAddress(p, p', reports[n - 1], x, target, id); }
    }
    ColumnStep(db, reports, n, x, id, d, d', c);
  }

  lemma OtherAddress(p: Pass, p': Pass, r: Report, x: Context, target: nat, id: nat)
    requires Wrote(p, p', r, x, target) && UniqueMacs(p.db.devices) && id in p.db.devices && id != target
    ensures p'.db.devices[id] == p.db.devices[id] && r.mac != p.db.devices[id].mac
  {
  }

  // One more report, for a row that was there before it.
  lemma ColumnStep(db: Db, reports: seq<Report>, n: nat, x: Context, id: nat, d: Device, d': Device, c: Column)
    requires 0 < n <= |reports| && d'.mac == d.mac && ColumnFits(db, reports, n - 1, x, id, d, c)
    requires id !in db.devices ==> Reported(reports, n - 1, d.mac)
    requires var said := reports[n - 1].mac == d.mac && Says(Given(reports[n - 1], x, c));
      ValueOf(d', c) == if said then Given(reports[n - 1], x, c) else ValueOf(d, c)
    ensures ColumnFits(db, reports, n, x, id, d', c)
  {
    hide Given, Says, ValueOf, LastSaid, NeverSaid;
    SaidBefore(reports, n, x, d.mac, c);
  }

  // How the last report changes who said something last.
  lemma SaidBefore(reports: seq<Report>, n: nat, x: Context, mac: string, c: Column)
    requires 0 < n <= |reports|
    ensures var said := reports[n - 1].mac == mac && Says(Given(reports[n - 1], x, c));
      && (forall i: nat | LastSaid(reports, n, x, mac, c, i) ::
        if said then i == n - 1 else LastSaid(reports, n - 1, x, mac, c, i))
      && (NeverSaid(reports, n, x, mac, c) <==> !said && NeverSaid(reports, n - 1, x, mac, c))
      && (forall i: nat | FirstOf(reports, n, mac, i) :: i < n - 1 ==> FirstOf(reports, n - 1, mac, i))
      && (NeverSaid(reports, n, x, mac, c) ==> forall i: nat :: !LastSaid(reports, n, x, mac, c, i))
  {
    hide Given, Says;
  }

  lemma NewColumn(db: Db, p: Pass, p': Pass, reports: seq<Report>, n: nat, x: Context, target: nat, id: nat, c: Column)
    requires 0 < n <= |reports| && Wrote(p, p', reports[n - 1], x, target)
      && WroteColumns(p, p', reports[n - 1], x, target)
    requires RowsKept(db, p.db) && RowsAdded(db, p.db, reports, n - 1)
    requires id in p'.db.devices && id !in p.db.devices
    ensures ColumnFits(db, reports, n, x, id, p'.db.devices[id], c)
  {
    hide Given, Says, ValueOf;
    var mac := reports[n - 1].mac;
    assert id == target && p'.db.devices[id].mac == mac;
    forall i | 0 <= i < n - 1 ensures reports[i].mac != mac {
      assert HasMac(p.db.devices, reports[i].mac);
    }
    assert id !in db.devices;
  }

  /** The scan time is the last sighting of exactly the reported rows; a row not reported stays as it was. */
  lemma {:induction false} SightingIsReport(db: Db, reports: seq<Report>, n: nat, x: Context, id: nat)
    requires UniqueMacs(db.devices) && n <= |reports| && id in NaivePass(db, reports, n, x).db.devices
    ensures var d := NaivePass(db, reports, n, x).db.devices[id];
      if Reported(reports, n, d.mac) then d.lastSeen == x.scannedAt else id in db.devices && d == db.devices[id]
  {
    hide NaivePass, Wrote, WroteColumns, WroteObservation, RowsKept, RowsAdded, UniqueMacs;
    if n == 0 {
      NothingSighted(db, reports, x, id);
    } else {
      var p, p', target := PassWrites(db, reports, n, x);
      PassPreserves(db, reports, n - 1, x);
      if id in p.db.devices {
        SightingIsReport(db, reports, n - 1, x, id);
      }
      OneMoreSighting(db, p, p', reports, n, x, target, id);
    }
  }

  lemma NothingSighted(db: Db, reports: seq<Report>, x: Context, id: nat)
    requires id in NaivePass(db, reports, 0, x).db.devices
    ensures id in db.devices && NaivePass(db, reports, 0, x).db.devices[id] == db.devices[id]
  {
  }

  lemma OneMoreSighting(db: Db, p: Pass, p': Pass, reports: seq<Report>, n: nat, x: Context, target: nat, id: nat)
    requires 0 < n <= |reports| && Wrote(p, p', reports[n - 1], x, target)
      && WroteColumns(p, p', reports[n - 1], x, target)
    requires UniqueMacs(p.db.devices) && id in p'.db.devices
    requires id in p.db.devices ==>
      var d := p.db.devices[id];
      if Reported(reports, n - 1, d.mac) then d.lastSeen == x.scannedAt else id in db.devices && d == db.devices[id]
    ensures var d := p'.db.devices[id];
      if Reported(reports, n, d.mac) then d.lastSeen == x.scannedAt else id in db.devices && d == db.devices[id]
  {
    hide Given, Says, ValueOf;
    var d := p'.db.devices[id];
    if id == target {
      assert reports[n - 1].mac == d.mac;
    } else {
      assert reports[n - 1].mac != d.mac;
      assert Reported(reports, n, d.mac) <==> Reported(reports, n - 1, d.mac);
    }
  }

  /** A new row starts at the scan time, without a given name and without notes. */
  lemma {:induction false} NewRowsAreBare(db: Db, reports: seq<Report>, n: nat, x: Context, id: nat)
    requires UniqueMacs(db.devices) && n <= |reports|
    requires id in NaivePass(db, reports, n, x).db.devices && id !in db.devices
    ensures var d := NaivePass(db, reports, n, x).db.devices[id];
      d.status == Unknown && d.firstSeen == x.scannedAt && d.displayName == None && d.notes == None
  {
    hide NaivePass, RowsKept, RowsAdded, UniqueMacs, WroteObservation, Touches;
    if n == 0 {
      NothingSighted(db, reports, x, id);
    } else {
      var p, p', target := PassWrites(db, reports, n, x);
      var q, q', touched := PassStep(db, reports, n, x);
      PassPreserves(db, reports, n, x);
      NewRowsAreUnknown(db, p', reports, n, id);
      if id in p.db.devices {
        NewRowsAreBare(db, reports, n - 1, x, id);
        StillBare(p, p', reports[n - 1], x, touched, id);
      }
    }
  }

  lemma NewRowsAreUnknown(db: Db, p: Pass, reports: seq<Report>, n: nat, id: nat)
    requires n <= |reports| && RowsAdded(db, p.db, reports, n) && id in p.db.devices && id !in db.devices
    ensures p.db.devices[id].status == Unknown
  {
  }

  lemma StillBare(p: Pass, p': Pass, r: Report, x: Context, touched: nat, id: nat)
    requires Touches(p, p', r, x, touched) && id in p.db.devices
    ensures id in p'.db.devices && p'.db.devices[id].firstSeen == p.db.devices[id].firstSeen
    ensures p'.db.devices[id].displayName == p.db.devices[id].displayName
      && p'.db.devices[id].notes == p.db.devices[id].notes
  {
  }

  // ---------------------------------------------------------------- observations

  // Observation number i of this scan belongs to the row with the address of report i.
  ghost predicate ObservedFrom(before: Db, after: Db, reports: seq<Report>, n: nat, x: Context)
    requires n <= |reports|
  {
    var first := FreshId(before.observations.Keys);
    && FreshId(after.observations.Keys) == first + n
    && (forall o | o in before.observations ::
      o in after.observations && after.observations[o] == before.observations[o])
    && (forall i: nat | i < n :: ObservationFits(after, first + i, reports[i], x))
  }

  ghost predicate ObservationFits(after: Db, o: nat, r: Report, x: Context) {
    && o in after.observations && Records(after.observations[o], r, x)
    && after.observations[o].deviceId in after.devices && after.devices[after.observations[o].deviceId].mac == r.mac
  }

  /** Each report leaves one observation of its own values, linked to the row of its MAC; older ones stay. */
  lemma {:induction false} EachReportIsObserved(db: Db, reports: seq<Report>, n: nat, x: Context)
    requires UniqueMacs(db.devices) && n <= |reports|
    ensures ObservedFrom(db, NaivePass(db, reports, n, x).db, reports, n, x)
  {
    hide NaivePass, Wrote, WroteColumns, WroteObservation, ObservedFrom, UniqueMacs;
    if n == 0 {
      NothingObserved(db, reports, x);
    } else {
      var p, p', target := PassWrites(db, reports, n, x);
      EachReportIsObserved(db, reports, n - 1, x);
      OneMoreObserved(db, p, p', reports, n, x, target);
    }
  }

  lemma NothingObserved(db: Db, reports: seq<Report>, x: Context)
    ensures ObservedFrom(db, NaivePass(db, reports, 0, x).db, reports, 0, x)
  {
  }

  lemma OneMoreObserved(db: Db, p: Pass, p': Pass, reports: seq<Report>, n: nat, x: Context, target: nat)
    requires 0 < n <= |reports| && Wrote(p, p', reports[n - 1], x, target)
      && WroteObservation(p, p', reports[n - 1], x, target)
    requires ObservedFrom(db, p.db, reports, n - 1, x)
    ensures ObservedFrom(db, p'.db, reports, n, x)
  {
    hide Records, Wrote, WroteObservation, ObservationFits, Insert;
    var o, first := FreshId(p.db.observations.Keys), FreshId(db.observations.Keys);
    LastObservation(p, p', reports[n - 1], x, target);
    forall i: nat | i < n ensures ObservationFits(p'.db, first + i, reports[i], x) {
      if i < n - 1 {
        assert ObservationFits(p.db, first + i, reports[i], x);
        EarlierObservation(p, p', reports[n - 1], x, target, first + i, reports[i]);
      }
    }
  }

  lemma LastObservation(p: Pass, p': Pass, r: Report, x: Context, target: nat)
    requires Wrote(p, p', r, x, target) && WroteObservation(p, p', r, x, target)
    ensures var o := FreshId(p.db.observations.Keys);
      && FreshId(p'.db.observations.Keys) == o + 1 && ObservationFits(p'.db, o, r, x)
      && (forall k | k in p.db.observations :: k in p'.db.observations && p'.db.observations[k] == p.db.observations[k])
  {
    hide Records;
    var o := FreshId(p.db.observations.Keys);
    FreshAfterInsert(p.db.observations, p'.db.observations[o]);
  }

  lemma FreshAfterInsert<T>(table: map<nat, T>, row: T)
    ensures FreshId(Insert(table, row).Keys) == FreshId(table.Keys) + 1
  {
    assert Insert(table, row).Keys == table.Keys + {FreshId(table.Keys)};
  }

  lemma EarlierObservation(p: Pass, p': Pass, r: Report, x: Context, target: nat, o: nat, earlier: Report)
    requires Wrote(p, p', r, x, target) && WroteObservation(p, p', r, x, target) && ObservationFits(p.db, o, earlier, x)
    ensures ObservationFits(p'.db, o, earlier, x)
  {
    hide Records;
  }
}
