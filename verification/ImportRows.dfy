/** What an import reads from a line and writes to a row (app/api/routes_import_export.py). */
module ImportRows {
  import opened Base
  import opened Tables
  import opened Text
  import opened Mac
  import opened Devices
  import opened ImportExport

  // ---------------------------------------------------------------- lines

  // A line with these two columns: the header of a table and an unreadable address are skipped.
  ghost predicate ReadsAs(r: Option<Record>, address: string, note: string) {
    if Lower(address) == "mac" || Lower(address) == "mac address" || NormalizeMac(Some(address)).None? then r == None
    else r == Some(Record(NormalizeMac(Some(address)).value, note))
  }

  /** Blank lines and comments are skipped. */
  lemma SkippedLine(raw: string)
    requires Strip(raw) == "" || Strip(raw)[0] == '#'
    ensures ParseLine(raw) == None
  {
  }

  /** With a comma: the address before the first one, the note after it, both stripped. */
  lemma CsvLine(raw: string, address: string, note: string)
    requires Strip(raw) == address + "," + note && ',' !in address && Strip(raw)[0] != '#'
    ensures ReadsAs(ParseLine(raw), Strip(address), Strip(note))
  {
    hide Strip, Lower, NormalizeMac, IndexOf;
    var line := Strip(raw);
    assert forall i | 0 <= i < |address| :: line[i] == address[i] && address[i] in address;
    IndexOfAt(line, ',', |address|);
    assert line[..|address|] == address && line[|address| + 1..] == note;
  }

  /** Without a comma, with a hash: the same around the first hash. */
  lemma HashLine(raw: string, address: string, note: string)
    requires Strip(raw) == address + "#" + note && ',' !in Strip(raw) && '#' !in address && address != ""
    ensures ReadsAs(ParseLine(raw), Strip(address), Strip(note))
  {
    hide Strip, Lower, NormalizeMac, IndexOf;
    var line := Strip(raw);
    assert forall i | 0 <= i < |address| :: line[i] == address[i] && address[i] in address;
    IndexOfAbsent(line, ',');
    IndexOfAt(line, '#', |address|);
    assert line[0] == address[0];
    assert line[..|address|] == address && line[|address| + 1..] == note;
  }

  /** With neither: the whole line is the address. */
  lemma BareLine(raw: string)
    requires Strip(raw) != "" && ',' !in Strip(raw) && '#' !in Strip(raw)
    ensures ReadsAs(ParseLine(raw), Strip(Strip(raw)), "")
  {
    hide Strip, Lower, NormalizeMac, IndexOf;
    var line := Strip(raw);
    IndexOfAbsent(line, ',');
    IndexOfAbsent(line, '#');
    assert line[0] in line && line[..|line|] == line;
  }

  /** The readable lines, in order: each adds its record at the end. */
  lemma RecordsInOrder(lines: seq<string>, line: string)
    ensures Records(lines + [line]) == Records(lines) + if ParseLine(line).Some? then [ParseLine(line).value] else []
    ensures Records([]) == []
  {
    hide ParseLine;
    assert (lines + [line])[..|lines|] == lines;
  }

  // ---------------------------------------------------------------- rows

  ghost predicate Listed(records: seq<Record>, n: nat, mac: string)
    requires n <= |records|
  {
    exists i :: 0 <= i < n && records[i].mac == mac
  }

  // The first note for this address that is not empty.
  ghost function FirstNote(records: seq<Record>, n: nat, mac: string): string
    requires n <= |records|
  {
    if n == 0 then ""
    else if FirstNote(records, n - 1, mac) != "" then FirstNote(records, n - 1, mac)
    else if records[n - 1].mac == mac then records[n - 1].note
    else ""
  }

  // The row of a device that was there before the import.
  ghost predicate KnownRow(before: Device, after: Device, records: seq<Record>, n: nat)
    requires n <= |records|
  {
    if !Listed(records, n, before.mac) then after == before
    else
      var note := FirstNote(records, n, before.mac);
      var nameless := before.displayName == None || before.displayName == Some("");
      after == before.(status := Trusted,
                       displayName := if nameless && note != "" then Some(note) else before.displayName)
  }

  // The row of a device that the import added.
  ghost predicate AddedRow(after: Device, records: seq<Record>, n: nat, now: int)
    requires n <= |records|
  {
    && Listed(records, n, after.mac)
    && after == Device(after.mac, Trusted, None, Some(FirstNote(records, n, after.mac)), None, None, None, now, now,
                       None, None, None, map[])
  }

  ghost predicate RowsFit(db: Db, after: Db, records: seq<Record>, n: nat, now: int)
    requires n <= |records|
  {
    && (forall id | id in db.devices :: id in after.devices && KnownRow(db.devices[id], after.devices[id], records, n))
    && (forall id | id in after.devices && id !in db.devices :: AddedRow(after.devices[id], records, n, now))
    && (forall i | 0 <= i < n :: exists id :: id in after.devices && after.devices[id].mac == records[i].mac)
  }

  /**
    After an import exactly the listed addresses have changed or new rows: trusted, named by the
    first non-empty note where there was no name, and otherwise as they were or empty.
   */
  lemma {:induction false} ImportedRows(db: Db, records: seq<Record>, n: nat, now: int, at: int)
    requires UniqueMacs(db.devices) && n <= |records|
    ensures UniqueMacs(ApplyAll(db, records, n, now, at).db.devices)
    ensures RowsFit(db, ApplyAll(db, records, n, now, at).db, records, n, now)
  {
    hide RowsFit, UniqueMacs, ApplyRecord;
    if n == 0 {
      NothingImported(db, records, now);
    } else {
      ImportedRows(db, records, n - 1, now, at);
      var a, r := ApplyAll(db, records, n - 1, now, at), records[n - 1];
      ApplyKeepsUnique(a, r, now, at);
      OneMoreRow(db, a, records, n, now, at);
    }
  }

  lemma NothingImported(db: Db, records: seq<Record>, now: int)
    ensures RowsFit(db, db, records, 0, now)
  {
  }

  // One record writes the row of its address and leaves the others.
  ghost predicate WroteRow(a: Applied, b: Applied, r: Record, now: int, id: nat) {
    && b.db.devices.Keys == a.db.devices.Keys + {id}
    && (forall k | k in a.db.devices && k != id :: b.db.devices[k] == a.db.devices[k] && a.db.devices[k].mac != r.mac)
    && (id in a.db.devices ==> a.db.devices[id].mac == r.mac && b.db.devices[id] == Renewed(a.db.devices[id], r))
    && (id !in a.db.devices ==>
          b.db.devices[id] == Device(r.mac, Trusted, None, Some(r.note), None, None, None, now, now, None,
            None, None, map[]))
  }

  ghost function Renewed(d: Device, r: Record): Device {
    var nameless := d.displayName == None || d.displayName == Some("");
    d.(status := Trusted, displayName := if r.note != "" && nameless then Some(r.note) else d.displayName)
  }

  lemma RecordWrites(a: Applied, r: Record, now: int, at: int) returns (id: nat)
    requires UniqueMacs(a.db.devices)
    ensures WroteRow(a, ApplyRecord(a, r, now, at, FindByMac(a.db.devices, r.mac)), r, now, id)
    ensures id !in a.db.devices ==> forall k | k in a.db.devices :: a.db.devices[k].mac != r.mac
  {
    hide UniqueMacs, FindByMac, ApplyRecord, FreshId;
    var found := FindByMac(a.db.devices, r.mac);
    id := Slot(a.db.devices, found);
    OnlyRow(a.db.devices, r.mac);
    RecordDevices(a, r, now, at, found);
  }

  lemma OnlyRow(devices: map<nat, Device>, mac: string)
    requires UniqueMacs(devices)
    ensures forall k | k in devices && k != Slot(devices, FindByMac(devices, mac)) :: devices[k].mac != mac
  {
  }

  lemma RecordDevices(a: Applied, r: Record, now: int, at: int, found: Option<nat>)
    requires found.Some? ==> found.value in a.db.devices
    ensures var devices := a.db.devices;
      ApplyRecord(a, r, now, at, found).db.devices == devices[Slot(devices, found) :=
        if found.Some? then Renewed(devices[found.value], r)
        else Device(r.mac, Trusted, None, Some(r.note), None, None, None, now, now, None, None, None, map[])]
  {
    hide Insert, FreshId;
  }

  lemma OneMoreRow(db: Db, a: Applied, records: seq<Record>, n: nat, now: int, at: int)
    requires 0 < n <= |records| && UniqueMacs(a.db.devices) && RowsFit(db, a.db, records, n - 1, now)
    ensures RowsFit(db, ApplyRecord(a, records[n - 1], now, at, FindByMac(a.db.devices, records[n - 1].mac)).db,
      records, n, now)
  {
    hide ApplyRecord, UniqueMacs, FindByMac, KnownRow, AddedRow, WroteRow;
    var r := records[n - 1];
    var b := ApplyRecord(a, r, now, at, FindByMac(a.db.devices, r.mac));
    var target := RecordWrites(a, r, now, at);
    forall id | id in db.devices ensures id in b.db.devices && KnownRow(db.devices[id], b.db.devices[id], records, n) {
      KnownRowStep(db, a, b, records, n, now, target, id);
    }
    forall id | id in b.db.devices && id !in db.devices ensures AddedRow(b.db.devices[id], records, n, now) {
      AddedRowStep(db, a, b, records, n, now, target, id);
    }
    forall i | 0 <= i < n ensures exists id :: id in b.db.devices && b.db.devices[id].mac == records[i].mac {
      HasRowStep(db, a, b, records, n, now, target, i);
    }
  }

  lemma KnownRowStep(db: Db, a: Applied, b: Applied, records: seq<Record>, n: nat, now: int, target: nat, id: nat)
    requires 0 < n <= |records| && WroteRow(a, b, records[n - 1], now, target)
    requires id in db.devices && id in a.db.devices && KnownRow(db.devices[id], a.db.devices[id], records, n - 1)
    ensures id in b.db.devices && KnownRow(db.devices[id], b.db.devices[id], records, n)
  {
    var mac := db.devices[id].mac;
    assert records[n - 1].mac == mac ==> Listed(records, n, mac);
    assert records[n - 1].mac != mac ==> (Listed(records, n, mac) <==> Listed(records, n - 1, mac));
    if !Listed(records, n - 1, mac) {
      NoNote(records, n - 1, mac);
    }
  }

  lemma {:induction false} NoNote(records: seq<Record>, n: nat, mac: string)
    requires n <= |records| && !Listed(records, n, mac)
    ensures FirstNote(records, n, mac) == ""
  {
    if n > 0 {
      assert !Listed(records, n - 1, mac);
      NoNote(records, n - 1, mac);
    }
  }

  lemma AddedRowStep(db: Db, a: Applied, b: Applied, records: seq<Record>, n: nat, now: int, target: nat, id: nat)
    requires 0 < n <= |records| && WroteRow(a, b, records[n - 1], now, target)
    requires id in b.db.devices && id !in db.devices && RowsFit(db, a.db, records, n - 1, now)
    ensures AddedRow(b.db.devices[id], records, n, now)
  {
    hide AddedRow, KnownRow, FirstNote, WroteRow;
    if id in a.db.devices {
      AddedRowStays(a, b, records, n, now, target, id);
    } else {
      FirstTime(db, a, b, records, n, now, target, id);
      AddedRowNew(a, b, records, n, now, target, id);
    }
  }

  lemma AddedRowStays(a: Applied, b: Applied, records: seq<Record>, n: nat, now: int, target: nat, id: nat)
    requires 0 < n <= |records| && WroteRow(a, b, records[n - 1], now, target)
    requires id in a.db.devices && AddedRow(a.db.devices[id], records, n - 1, now)
    ensures id in b.db.devices && AddedRow(b.db.devices[id], records, n, now)
  {
    var mac := a.db.devices[id].mac;
    assert Listed(records, n - 1, mac) ==> Listed(records, n, mac);
    if id != target {
      assert records[n - 1].mac != mac;
    }
  }

  lemma FirstTime(db: Db, a: Applied, b: Applied, records: seq<Record>, n: nat, now: int, target: nat, id: nat)
    requires 0 < n <= |records| && WroteRow(a, b, records[n - 1], now, target) && RowsFit(db, a.db, records, n - 1, now)
    requires id in b.db.devices && id !in a.db.devices
    ensures !Listed(records, n - 1, records[n - 1].mac)
  {
    hide AddedRow, KnownRow;
    forall i | 0 <= i < n - 1 ensures records[i].mac != records[n - 1].mac {
      var k :| k in a.db.devices && a.db.devices[k].mac == records[i].mac;
      assert k != target;
    }
  }

  lemma AddedRowNew(a: Applied, b: Applied, records: seq<Record>, n: nat, now: int, target: nat, id: nat)
    requires 0 < n <= |records| && WroteRow(a, b, records[n - 1], now, target)
    requires id in b.db.devices && id !in a.db.devices && !Listed(records, n - 1, records[n - 1].mac)
    ensures AddedRow(b.db.devices[id], records, n, now)
  {
    NoNote(records, n - 1, records[n - 1].mac);
    assert Listed(records, n, records[n - 1].mac);
  }

  lemma HasRowStep(db: Db, a: Applied, b: Applied, records: seq<Record>, n: nat, now: int, target: nat, i: nat)
    requires i < n <= |records| && WroteRow(a, b, records[n - 1], now, target) && RowsFit(db, a.db, records, n - 1, now)
    ensures exists id :: id in b.db.devices && b.db.devices[id].mac == records[i].mac
  {
    if i < n - 1 {
      var k :| k in a.db.devices && a.db.devices[k].mac == records[i].mac;
      assert k in b.db.devices && b.db.devices[k].mac == records[i].mac;
    } else {
      assert b.db.devices[target].mac == records[i].mac;
    }
  }

  // ---------------------------------------------------------------- the count and the audit log

  // The rows that were not trusted, or not there, and are listed now.
  ghost function NewlyTrusted(db: Db, after: Db): set<nat> {
    set id | id in after.devices && (id !in db.devices || db.devices[id].status != after.devices[id].status)
  }

  ghost predicate Audited(db: Db, a: Applied) {
    && a.count == |NewlyTrusted(db, a.db)| && |a.db.audit| == |db.audit| + a.count && db.audit <= a.db.audit
    && (forall i | |db.audit| <= i < |a.db.audit| ::
          a.db.audit[i] == AuditRow(Trust, a.db.audit[i].target, None)
            && a.db.audit[i].target in NewlyTrusted(db, a.db))
  }

  /** The count is the number of devices that became trusted, and each has its audit row. */
  lemma {:induction false} CountIsNewlyTrusted(db: Db, records: seq<Record>, n: nat, now: int, at: int)
    requires UniqueMacs(db.devices) && n <= |records|
    ensures Audited(db, ApplyAll(db, records, n, now, at))
  {
    hide RowsFit, UniqueMacs, ApplyRecord, Audited;
    if n == 0 {
      NothingAudited(db);
    } else {
      ImportedRows(db, records, n - 1, now, at);
      CountIsNewlyTrusted(db, records, n - 1, now, at);
      OneMoreAudited(db, ApplyAll(db, records, n - 1, now, at), records, n, now, at);
    }
  }

  lemma NothingAudited(db: Db)
    ensures Audited(db, Applied(db, 0))
  {
    assert NewlyTrusted(db, db) == {};
  }

  // One audit row, unless the device was trusted already.
  ghost predicate AuditedOne(a: Applied, b: Applied, id: nat) {
    if id in a.db.devices && a.db.devices[id].status == Trusted then b.count == a.count && b.db.audit == a.db.audit
    else b.count == a.count + 1 && b.db.audit == a.db.audit + [AuditRow(Trust, id, None)]
  }

  lemma RecordAudits(a: Applied, r: Record, now: int, at: int) returns (id: nat)
    requires UniqueMacs(a.db.devices)
    ensures var b := ApplyRecord(a, r, now, at, FindByMac(a.db.devices, r.mac));
      WroteRow(a, b, r, now, id) && AuditedOne(a, b, id)
  {
    id := RecordWrites(a, r, now, at);
    assert FindByMac(a.db.devices, r.mac).Some? ==> FindByMac(a.db.devices, r.mac).value == id;
    assert FindByMac(a.db.devices, r.mac).None? ==> id == FreshId(a.db.devices.Keys) by {
      assert FindByMac(a.db.devices, r.mac).None? ==>
        ApplyRecord(a, r, now, at, FindByMac(a.db.devices, r.mac)).db.devices.Keys
          == a.db.devices.Keys + {FreshId(a.db.devices.Keys)};
    }
  }

  lemma NewlyTrustedStep(db: Db, a: Applied, b: Applied, records: seq<Record>, n: nat, now: int, id: nat)
    requires 0 < n <= |records| && WroteRow(a, b, records[n - 1], now, id) && RowsFit(db, a.db, records, n - 1, now)
    ensures var trusted := id in a.db.devices && a.db.devices[id].status == Trusted;
      && NewlyTrusted(db, b.db) == NewlyTrusted(db, a.db) + (if trusted then {} else {id})
      && (!trusted ==> id !in NewlyTrusted(db, a.db))
  {
    hide FirstNote, Listed;
    assert id in db.devices ==> id in a.db.devices && KnownRow(db.devices[id], a.db.devices[id], records, n - 1);
    assert id !in db.devices && id in a.db.devices ==> AddedRow(a.db.devices[id], records, n - 1, now);
    forall k ensures k in NewlyTrusted(db, b.db) <==>
      k in NewlyTrusted(db, a.db) || (k == id && !(id in a.db.devices && a.db.devices[id].status == Trusted))
    {
    }
  }

  lemma OneMoreAudited(db: Db, a: Applied, records: seq<Record>, n: nat, now: int, at: int)
    requires 0 < n <= |records| && UniqueMacs(a.db.devices) && RowsFit(db, a.db, records, n - 1, now) && Audited(db, a)
    ensures Audited(db, ApplyRecord(a, records[n - 1], now, at, FindByMac(a.db.devices, records[n - 1].mac)))
  {
    hide FindByMac, ApplyRecord, WroteRow, RowsFit, NewlyTrusted, UniqueMacs;
    var b := ApplyRecord(a, records[n - 1], now, at, FindByMac(a.db.devices, records[n - 1].mac));
    var id := RecordAudits(a, records[n - 1], now, at);
    NewlyTrustedStep(db, a, b, records, n, now, id);
  }
}
