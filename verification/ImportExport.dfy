/** Import and export of the trusted-device list (app/api/routes_import_export.py). */
module ImportExport {
  import opened Base
  import opened Tables
  import opened Text
  import opened Mac
  import opened Devices

  datatype Record = Record(mac: string, note: string)

  datatype ImportError = TooLarge | NotUtf8 | TooManyRows

  // The uploaded file: its size in bytes and its text, None when it is not valid UTF-8.
  datatype Upload = Upload(size: nat, text: Option<string>)

  datatype Limits = Limits(maxBytes: nat, maxRows: nat)

  // ---------------------------------------------------------------- parsing

  // Address column and note column of a stripped line.
  function Columns(line: string): (string, string) {
    var comma := IndexOf(line, ',');
    if comma < |line| then (Strip(line[..comma]), Strip(line[comma + 1..]))
    else
      var hash := IndexOf(line, '#');
      (Strip(line[..hash]), if hash < |line| then Strip(line[hash + 1..]) else "")
  }

  function ParseLine(raw: string): Option<Record> {
    var line := Strip(raw);
    if line == "" || line[0] == '#' then None
    else
      var (address, note) := Columns(line);
      if Lower(address) == "mac" || Lower(address) == "mac address" then None
      else
        match NormalizeMac(Some(address))
        case None => None
        case Some(mac) => Some(Record(mac, note))
  }

  function Records(lines: seq<string>): (r: seq<Record>)
    ensures |r| <= |lines|
  {
    if lines == [] then []
    else
      var rest, last := Records(lines[..|lines| - 1]), ParseLine(lines[|lines| - 1]);
      if last.Some? then rest + [last.value] else rest
  }

  function RecordsUpTo(lines: seq<string>, i: nat): seq<Record>
    requires i <= |lines|
  {
    Records(lines[..i])
  }

  lemma RecordsStep(lines: seq<string>, i: nat)
    requires i < |lines|
    ensures RecordsUpTo(lines, i + 1) == RecordsUpTo(lines, i) + var r := ParseLine(lines[i]);
      if r.Some? then [r.value] else []
    ensures RecordsUpTo(lines, 0) == [] && RecordsUpTo(lines, |lines|) == Records(lines)
  {
    hide ParseLine;
    assert lines[..i + 1][..i] == lines[..i];
    assert lines[..|lines|] == lines;
  }

  lemma {:induction false} RecordsGrow(lines: seq<string>, i: nat)
    requires i < |lines|
    ensures |RecordsUpTo(lines, i + 1)| <= |Records(lines)|
    decreases |lines| - i
  {
    hide Records, RecordsUpTo, ParseLine;
    RecordsStep(lines, i);
    if i + 1 < |lines| {
      RecordsStep(lines, i + 1);
      RecordsGrow(lines, i + 1);
    }
  }

  /** Phase 1 reads only: the loop stops at the row limit, and rejects exactly the files that exceed it. */
  method ParseImport(upload: Upload, limits: Limits) returns (r: Result<seq<Record>, ImportError>)
    ensures r == if upload.size > limits.maxBytes then Err(TooLarge)
                 else if upload.text.None? then Err(NotUtf8)
                 else
                   var records := Records(SplitLines(upload.text.value));
                   if |records| > limits.maxRows then Err(TooManyRows) else Ok(records)
  {
    hide SplitLines;
    if upload.size > limits.maxBytes {
      return Err(TooLarge);
    }
    if upload.text.None? {
      return Err(NotUtf8);
    }
    r := ParseLines(SplitLines(upload.text.value), limits.maxRows);
  }

  method ParseLines(lines: seq<string>, maxRows: nat) returns (r: Result<seq<Record>, ImportError>)
    ensures r == if |Records(lines)| > maxRows then Err(TooManyRows) else Ok(Records(lines))
  {
    hide Records, RecordsUpTo, ParseLine;
    if lines == [] {
      NoRecords(lines);
      return Ok([]);
    }
    RecordsStep(lines, 0);
    var records: seq<Record> := [];
    for i := 0 to |lines|
      invariant records == RecordsUpTo(lines, i) && |records| <= maxRows
    {
      RecordsStep(lines, i);
      var record := ParseLine(lines[i]);
      if record.Some? {
        records := records + [record.value];
        if |records| > maxRows {
          RecordsGrow(lines, i);
          return Err(TooManyRows);
        }
      }
    }
    r := Ok(records);
  }

  lemma NoRecords(lines: seq<string>)
    requires lines == []
    ensures Records(lines) == []
  {
  }

  // ---------------------------------------------------------------- applying

  datatype Applied = Applied(db: Db, count: nat)

  predicate Blank(name: Option<string>) {
    name.None? || name.value == ""
  }

  // One record, given the row its MAC was found at.
  function ApplyRecord(a: Applied, r: Record, now: int, at: int, found: Option<nat>): Applied
    requires found.Some? ==> found.value in a.db.devices
  {
    if found.None? then
      var id := FreshId(a.db.devices.Keys);
      var row := Device(r.mac, Trusted, None, Some(r.note), None, None, None, now, now, None, None, None, map[]);
      Applied(LogAction(a.db.(devices := a.db.devices[id := row]), id, Trust, None, at), a.count + 1)
    else
      var id := found.value;
      var d := a.db.devices[id];
      var named := if r.note != "" && Blank(d.displayName) then d.(displayName := Some(r.note)) else d;
      var db := a.db.(devices := a.db.devices[id := named.(status := Trusted)]);
      if d.status == Trusted then Applied(db, a.count) else Applied(LogAction(db, id, Trust, None, at), a.count + 1)
  }

  /** The reference: every record is looked up by a query of its own. */
  ghost function ApplyAll(db: Db, records: seq<Record>, n: nat, now: int, at: int): Applied
    requires n <= |records|
  {
    if n == 0 then Applied(db, 0)
    else
      var a := ApplyAll(db, records, n - 1, now, at);
      ApplyRecord(a, records[n - 1], now, at, FindByMac(a.db.devices, records[n - 1].mac))
  }

  // An applied record is one row written at the slot of its MAC.
  lemma ApplyWritesOneRow(a: Applied, r: Record, now: int, at: int) returns (row: Device)
    ensures row.mac == r.mac && row.status == Trusted && (r.note == "" || !Blank(row.displayName))
    ensures var found := FindByMac(a.db.devices, r.mac);
      ApplyRecord(a, r, now, at, found).db.devices == a.db.devices[Slot(a.db.devices, found) := row]
  {
    var found := FindByMac(a.db.devices, r.mac);
    row := ApplyRecord(a, r, now, at, found).db.devices[Slot(a.db.devices, found)];
  }

  lemma ApplyStep(a: Applied, r: Record, now: int, at: int, byMac: map<string, nat>, macs: seq<string>)
    requires UniqueMacs(a.db.devices) && Indexes(byMac, a.db.devices, macs) && r.mac in macs
    ensures FindByMac(a.db.devices, r.mac) == if r.mac in byMac then Some(byMac[r.mac]) else None
    ensures var devices := ApplyRecord(a, r, now, at, FindByMac(a.db.devices, r.mac)).db.devices;
      UniqueMacs(devices) && Indexes(NextIndex(byMac, a.db.devices, r.mac), devices, macs)
  {
    hide ApplyRecord, UniqueMacs, Indexes;
    var row := ApplyWritesOneRow(a, r, now, at);
    IndexAnswersQuery(byMac, a.db.devices, macs, r.mac);
    PutKeepsUnique(a.db.devices, row);
    PutKeepsIndex(a.db.devices, row, byMac, macs);
  }

  /** The dictionary pass of phase 2 refines the reference, repeated MACs included. */
  method ApplyRecords(s: Session, records: seq<Record>, now: int, at: int) returns (count: nat)
    requires UniqueMacs(s.db.devices)
    modifies s
    ensures Applied(s.db, count) == ApplyAll(old(s.db), records, |records|, now, at)
    ensures UniqueMacs(s.db.devices)
  {
    hide UniqueMacs, Indexes, ApplyRecord;
    var macs := seq(|records|, i requires 0 <= i < |records| => records[i].mac);
    var existing: map<string, nat> := BatchLoadDevices(s.db.devices, macs);
    var a := Applied(s.db, 0);
    for i := 0 to |records|
      invariant a == ApplyAll(old(s.db), records, i, now, at) && s.db == a.db
      invariant UniqueMacs(a.db.devices)
      invariant Indexes(existing, a.db.devices, macs)
    {
      var r := records[i];
      assert macs[i] in macs;
      ApplyStep(a, r, now, at, existing, macs);
      var found := if r.mac in existing then Some(existing[r.mac]) else None;
      existing := NextIndex(existing, a.db.devices, r.mac);
      a := ApplyRecord(a, r, now, at, found);
      s.db := a.db;
    }
    count := a.count;
  }

  ghost function Imported(db: Db, records: seq<Record>, now: int, at: int): Applied {
    var a := ApplyAll(db, records, |records|, now, at);
    Applied(AddEvent(a.db, Event(None, EventKind.ImportTrusted, at)), a.count)
  }

  /** The whole request: a rejected file changes nothing; an accepted one is applied completely. */
  method ImportTrusted(s: Session, upload: Upload, limits: Limits, now: int, at: int)
    returns (r: Result<nat, ImportError>)
    requires UniqueMacs(s.db.devices)
    modifies s
    ensures r.Err? <==> upload.size > limits.maxBytes || upload.text.None?
                        || |Records(SplitLines(upload.text.value))| > limits.maxRows
    ensures r.Err? ==> s.db == old(s.db)
    ensures r.Ok? ==>
      Applied(s.db, r.value) == Imported(old(s.db), Records(SplitLines(upload.text.value)), now, at)
      && UniqueMacs(s.db.devices)
  {
    var parsed := ParseImport(upload, limits);
    if parsed.Err? {
      return Err(parsed.error);
    }
    var count := ApplyRecords(s, parsed.value, now, at);
    s.db := AddEvent(s.db, Event(None, EventKind.ImportTrusted, at));
    r := Ok(count);
  }

  // ---------------------------------------------------------------- importing twice

  // Nothing is left to do for this record.
  ghost predicate Settled(devices: map<nat, Device>, r: Record) {
    exists id :: id in devices && devices[id].mac == r.mac && devices[id].status == Trusted
                 && (r.note == "" || !Blank(devices[id].displayName))
  }

  lemma ApplyKeepsUnique(a: Applied, r: Record, now: int, at: int)
    requires UniqueMacs(a.db.devices)
    ensures UniqueMacs(ApplyRecord(a, r, now, at, FindByMac(a.db.devices, r.mac)).db.devices)
  {
    hide ApplyRecord, UniqueMacs;
    var row := ApplyWritesOneRow(a, r, now, at);
    PutKeepsUnique(a.db.devices, row);
  }

  lemma ApplySettles(a: Applied, r: Record, now: int, at: int)
    ensures Settled(ApplyRecord(a, r, now, at, FindByMac(a.db.devices, r.mac)).db.devices, r)
  {
    hide ApplyRecord;
    var row := ApplyWritesOneRow(a, r, now, at);
    var devices := a.db.devices[Slot(a.db.devices, FindByMac(a.db.devices, r.mac)) := row];
    assert devices[Slot(a.db.devices, FindByMac(a.db.devices, r.mac))] == row;
  }

  lemma ApplyKeepsSettled(a: Applied, r: Record, now: int, at: int, other: Record)
    requires Settled(a.db.devices, other)
    ensures Settled(ApplyRecord(a, r, now, at, FindByMac(a.db.devices, r.mac)).db.devices, other)
  {
    var id :| id in a.db.devices && a.db.devices[id].mac == other.mac && a.db.devices[id].status == Trusted
              && (other.note == "" || !Blank(a.db.devices[id].displayName));
    var devices := ApplyRecord(a, r, now, at, FindByMac(a.db.devices, r.mac)).db.devices;
    assert id in devices && devices[id].mac == other.mac;
  }

  lemma ApplyOneSettles(a: Applied, b: Applied, records: seq<Record>, n: nat, now: int, at: int)
    requires 0 < n <= |records| && UniqueMacs(a.db.devices)
    requires b == ApplyRecord(a, records[n - 1], now, at, FindByMac(a.db.devices, records[n - 1].mac))
    requires forall i | 0 <= i < n - 1 :: Settled(a.db.devices, records[i])
    ensures UniqueMacs(b.db.devices) && forall i | 0 <= i < n :: Settled(b.db.devices, records[i])
  {
    hide Settled, UniqueMacs, ApplyRecord, FindByMac;
    var r := records[n - 1];
    ApplyKeepsUnique(a, r, now, at);
    ApplySettles(a, r, now, at);
    forall i | 0 <= i < n - 1 ensures Settled(b.db.devices, records[i]) {
      ApplyKeepsSettled(a, r, now, at, records[i]);
    }
  }

  lemma {:induction false} ApplyAllSettles(db: Db, records: seq<Record>, n: nat, now: int, at: int)
    requires UniqueMacs(db.devices) && n <= |records|
    ensures UniqueMacs(ApplyAll(db, records, n, now, at).db.devices)
    ensures forall i | 0 <= i < n :: Settled(ApplyAll(db, records, n, now, at).db.devices, records[i])
  {
    if n > 0 {
      hide Settled, UniqueMacs, ApplyRecord, FindByMac;
      ApplyAllSettles(db, records, n - 1, now, at);
      ApplyOneSettles(ApplyAll(db, records, n - 1, now, at), ApplyAll(db, records, n, now, at), records, n, now, at);
    }
  }

  lemma SettledIsNoChange(a: Applied, r: Record, now: int, at: int)
    requires UniqueMacs(a.db.devices) && Settled(a.db.devices, r)
    ensures ApplyRecord(a, r, now, at, FindByMac(a.db.devices, r.mac)) == a
  {
    var id :| id in a.db.devices && a.db.devices[id].mac == r.mac && a.db.devices[id].status == Trusted
              && (r.note == "" || !Blank(a.db.devices[id].displayName));
    assert FindByMac(a.db.devices, r.mac) == Some(id);
    assert a.db.devices[id := a.db.devices[id]] == a.db.devices;
  }

  lemma {:induction false} AllSettledIsNoChange(db: Db, records: seq<Record>, n: nat, now: int, at: int)
    requires UniqueMacs(db.devices) && n <= |records|
    requires forall i | 0 <= i < n :: Settled(db.devices, records[i])
    ensures ApplyAll(db, records, n, now, at) == Applied(db, 0)
  {
    if n > 0 {
      AllSettledIsNoChange(db, records, n - 1, now, at);
      SettledIsNoChange(Applied(db, 0), records[n - 1], now, at);
    }
  }

  /**
    Importing the same accepted file again counts 0 and changes no device and no audit row,
    whatever the table held before the first import.
   */
  lemma ImportIsIdempotent(db: Db, records: seq<Record>, now: int, at: int, now2: int, at2: int)
    requires UniqueMacs(db.devices)
    ensures var once := Imported(db, records, now, at).db;
      var twice := Imported(once, records, now2, at2);
      twice.count == 0 && twice.db == AddEvent(once, Event(None, EventKind.ImportTrusted, at2))
  {
    ApplyAllSettles(db, records, |records|, now, at);
    AllSettledIsNoChange(Imported(db, records, now, at).db, records, |records|, now2, at2);
  }
}
