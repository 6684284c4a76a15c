/** Importing what was exported: the whole file, and the whole table (app/api/routes_import_export.py). */
module RoundTrip {
  import opened Base
  import opened Tables
  import opened Text
  import opened Mac
  import opened ImportExport
  import opened Export

  ghost function TrustedIds(devices: map<nat, Device>): set<nat> {
    set id | id in devices && devices[id].status == Trusted
  }

  // Scan and import store normalised addresses only.
  ghost predicate CanonicalMacs(devices: map<nat, Device>) {
    forall id | id in TrustedIds(devices) :: Canonical(devices[id].mac)
  }

  /** No exported name has a comma, or a line break before its last visible character. */
  ghost predicate Exportable(devices: map<nat, Device>) {
    forall id | id in TrustedIds(devices) :: Importable(ExportName(devices[id]))
  }

  lemma {:induction false} DistinctSize(ids: seq<nat>, s: set<nat>)
    requires Distinct(ids) && forall x :: x in s <==> x in ids
    ensures |s| == |ids|
  {
    if ids != [] {
      var rest, last := ids[..|ids| - 1], ids[|ids| - 1];
      assert ids == rest + [last];
      assert last !in rest;
      DistinctSize(rest, s - {last});
    }
  }

  lemma ListedSize(devices: map<nat, Device>, ids: seq<nat>)
    requires ListsTrusted(devices, ids)
    ensures |TrustedIds(devices)| == |ids|
  {
    DistinctSize(ids, TrustedIds(devices));
  }

  function ExportedRecord(d: Device): Record {
    Record(d.mac, Strip(ExportName(d)))
  }

  ghost function ExportedRecords(devices: map<nat, Device>, ids: seq<nat>, n: nat): (r: seq<Record>)
    requires n <= |ids| && forall i | 0 <= i < |ids| :: ids[i] in devices
    ensures |r| == n
  {
    if n == 0 then [] else ExportedRecords(devices, ids, n - 1) + [ExportedRecord(devices[ids[n - 1]])]
  }

  lemma {:induction false} ExportedAt(devices: map<nat, Device>, ids: seq<nat>, n: nat, i: nat)
    requires i < n <= |ids| && forall i | 0 <= i < |ids| :: ids[i] in devices
    ensures ExportedRecords(devices, ids, n)[i] == ExportedRecord(devices[ids[i]])
  {
    if i < n - 1 {
      ExportedAt(devices, ids, n - 1, i);
    }
  }

  // ---------------------------------------------------------------- the file, block by block

  function BlockOf(d: Device): seq<Record> {
    Records(SplitLines(ExportBlock(d.mac, ExportName(d))))
  }

  ghost function AllBlocks(devices: map<nat, Device>, ids: seq<nat>, n: nat): seq<Record>
    requires n <= |ids| && forall i | 0 <= i < |ids| :: ids[i] in devices
  {
    if n == 0 then [] else AllBlocks(devices, ids, n - 1) + BlockOf(devices[ids[n - 1]])
  }

  lemma HeaderIsSkipped()
    ensures ParseLine(HEADER).None?
  {
    CommentIsSkipped(HEADER);
  }

  lemma CommentIsSkipped(line: string)
    requires line != "" && line[0] == '#'
    ensures ParseLine(line).None?
  {
    StripKeepsFirst(line);
  }

  lemma HeaderRecords()
    ensures Records(SplitLines(HEADER + "\n")) == []
  {
    hide ParseLine, SplitLines;
    HeaderIsSkipped();
    assert HEADER + "\n" == HEADER + "\n" + "";
    SplitFirstLine(HEADER, "");
    SplitNothing();
    assert [HEADER][..0] == [];
  }

  lemma {:induction false} JoinAppend(lines: seq<string>, line: string)
    requires lines != []
    ensures JoinLines(lines + [line]) == JoinLines(lines) + "\n" + line
  {
    if |lines| == 1 {
      assert (lines + [line])[1..] == [line];
    } else {
      assert (lines + [line])[1..] == lines[1..] + [line];
      JoinAppend(lines[1..], line);
    }
  }

  lemma {:induction false} TextIsBlocks(devices: map<nat, Device>, ids: seq<nat>, n: nat)
    requires n <= |ids| && forall i | 0 <= i < |ids| :: ids[i] in devices
    ensures ExportLines(devices, ids, n) != []
    ensures Records(SplitLines(JoinLines(ExportLines(devices, ids, n)) + "\n")) == AllBlocks(devices, ids, n)
  {
    hide Records, SplitLines, JoinLines, ExportLine, ExportName, HEADER;
    if n == 0 {
      HeaderRecords();
      JoinOne();
    } else {
      TextIsBlocks(devices, ids, n - 1);
      var d, before := devices[ids[n - 1]], ExportLines(devices, ids, n - 1);
      var line := ExportLine(d.mac, ExportName(d));
      JoinAppend(before, line);
      assert JoinLines(before) + "\n" + line + "\n" == JoinLines(before) + "\n" + (line + "\n");
      SplitAppend(JoinLines(before), line + "\n");
      RecordsAppend(SplitLines(JoinLines(before) + "\n"), SplitLines(line + "\n"));
    }
  }

  lemma JoinOne()
    ensures JoinLines([HEADER]) == HEADER
  {
  }

  lemma {:induction false} InSomeBlock(devices: map<nat, Device>, ids: seq<nat>, n: nat, r: Record)
    requires n <= |ids| && (forall i | 0 <= i < |ids| :: ids[i] in devices) && r in AllBlocks(devices, ids, n)
    ensures exists j :: 0 <= j < n && r in BlockOf(devices[ids[j]])
  {
    hide BlockOf;
    if r in AllBlocks(devices, ids, n - 1) {
      InSomeBlock(devices, ids, n - 1, r);
    } else {
      assert r in BlockOf(devices[ids[n - 1]]);
    }
  }

  lemma {:induction false} BlocksWork(devices: map<nat, Device>, ids: seq<nat>, n: nat)
    requires n <= |ids| && ListsTrusted(devices, ids) && CanonicalMacs(devices) && Exportable(devices)
    ensures AllBlocks(devices, ids, n) == ExportedRecords(devices, ids, n)
  {
    hide Records, SplitLines, ExportBlock, Strip, Canonical, Importable, ExportName;
    if n > 0 {
      BlocksWork(devices, ids, n - 1);
      var d := devices[ids[n - 1]];
      assert ids[n - 1] in TrustedIds(devices);
      BlockWorks(d.mac, ExportName(d));
    }
  }

  // ---------------------------------------------------------------- and only then

  function NameSize(d: Device): nat {
    |Strip(ExportName(d))|
  }

  // Among the devices whose names do not come back, one with a longest name.
  lemma LongestFailure(devices: map<nat, Device>, bad: set<nat>) returns (id: nat)
    requires bad <= devices.Keys && bad != {}
    ensures id in bad && forall k | k in bad :: NameSize(devices[k]) <= NameSize(devices[id])
  {
    hide NameSize;
    id :| id in bad;
    if bad != {id} {
      var other := LongestFailure(devices, bad - {id});
      if NameSize(devices[id]) < NameSize(devices[other]) {
        id := other;
      }
    }
  }

  lemma LostDevice(devices: map<nat, Device>) returns (id: nat)
    requires !Exportable(devices)
    ensures id in TrustedIds(devices) && !Importable(ExportName(devices[id]))
    ensures forall k | k in TrustedIds(devices) && !Importable(ExportName(devices[k])) ::
      NameSize(devices[k]) <= NameSize(devices[id])
  {
    hide Importable, ExportName, NameSize;
    var bad := set k | k in TrustedIds(devices) && !Importable(ExportName(devices[k]));
    var some :| some in TrustedIds(devices) && !Importable(ExportName(devices[some]));
    assert some in bad;
    id := LongestFailure(devices, bad);
  }

  // Its record comes from no block: where names fail all notes are shorter, elsewhere the address differs.
  lemma LostEverywhere(devices: map<nat, Device>, id: nat, other: nat)
    requires UniqueMacs(devices) && CanonicalMacs(devices) && id in TrustedIds(devices) && other in TrustedIds(devices)
    requires !Importable(ExportName(devices[id]))
    requires !Importable(ExportName(devices[other])) ==> NameSize(devices[other]) <= NameSize(devices[id])
    ensures ExportedRecord(devices[id]) !in BlockOf(devices[other])
  {
    hide Records, SplitLines, ExportBlock, Strip, Canonical, Importable, ExportName;
    var d, r := devices[other], ExportedRecord(devices[id]);
    if Importable(ExportName(d)) {
      BlockWorks(d.mac, ExportName(d));
    } else if r in BlockOf(d) {
      BlockFails(d.mac, ExportName(d), r);
    }
  }

  lemma LostRecord(devices: map<nat, Device>, ids: seq<nat>) returns (id: nat)
    requires UniqueMacs(devices) && CanonicalMacs(devices) && ListsTrusted(devices, ids) && !Exportable(devices)
    ensures id in TrustedIds(devices) && ExportedRecord(devices[id]) !in AllBlocks(devices, ids, |ids|)
  {
    hide BlockOf, Importable, ExportName, NameSize, ExportedRecord, CanonicalMacs, UniqueMacs;
    id := LostDevice(devices);
    var r := ExportedRecord(devices[id]);
    if r in AllBlocks(devices, ids, |ids|) {
      InSomeBlock(devices, ids, |ids|, r);
      var j :| 0 <= j < |ids| && r in BlockOf(devices[ids[j]]);
      LostEverywhere(devices, id, ids[j]);
    }
  }

  /**
    The whole file parses back to exactly the exported addresses and stripped names, in order, if
    and only if no trusted device has a name with a comma or with a line break before its end.
    No other file line can make up for a name that is lost.
   */
  lemma ExportParses(devices: map<nat, Device>, ids: seq<nat>)
    requires UniqueMacs(devices) && CanonicalMacs(devices) && ListsTrusted(devices, ids)
    ensures Records(SplitLines(ExportText(devices, ids))) == ExportedRecords(devices, ids, |ids|)
      <==> Exportable(devices)
  {
    hide Records, SplitLines, ExportLines, ExportedRecord, Exportable, CanonicalMacs, UniqueMacs;
    TextIsBlocks(devices, ids, |ids|);
    if Exportable(devices) {
      BlocksWork(devices, ids, |ids|);
    } else {
      var id := LostRecord(devices, ids);
      var i :| 0 <= i < |ids| && ids[i] == id;
      ExportedAt(devices, ids, |ids|, i);
    }
  }

  // ---------------------------------------------------------------- the table after the import

  ghost predicate Restores(devices: map<nat, Device>, r: Record) {
    exists id :: id in devices && devices[id].mac == r.mac && devices[id].status == Trusted
                 && devices[id].displayName == Some(r.note)
  }

  ghost predicate Among(records: seq<Record>, n: nat, mac: string)
    requires n <= |records|
  {
    exists i :: 0 <= i < n && records[i].mac == mac
  }

  // The rows created by the first n records.
  ghost predicate Restored(devices: map<nat, Device>, records: seq<Record>, n: nat)
    requires n <= |records|
  {
    && (forall i | 0 <= i < n :: Restores(devices, records[i]))
    && (forall id | id in devices :: Among(records, n, devices[id].mac))
  }

  lemma NewRow(a: Applied, r: Record, now: int, at: int) returns (id: nat, row: Device)
    requires forall k | k in a.db.devices :: a.db.devices[k].mac != r.mac
    ensures var b := ApplyRecord(a, r, now, at, FindByMac(a.db.devices, r.mac));
      id !in a.db.devices && b.db.devices == a.db.devices[id := row] && b.count == a.count + 1
    ensures row.mac == r.mac && row.status == Trusted && row.displayName == Some(r.note)
  {
    id := FreshId(a.db.devices.Keys);
    row := ApplyRecord(a, r, now, at, FindByMac(a.db.devices, r.mac)).db.devices[id];
  }

  lemma RestoreOne(devices: map<nat, Device>, records: seq<Record>, n: nat, id: nat, row: Device)
    requires 0 < n <= |records| && Restored(devices, records, n - 1)
    requires id !in devices && row.mac == records[n - 1].mac && row.status == Trusted
      && row.displayName == Some(records[n - 1].note)
    ensures Restored(devices[id := row], records, n)
  {
    var devices' := devices[id := row];
    forall i | 0 <= i < n ensures Restores(devices', records[i]) {
      if i < n - 1 {
        assert Restores(devices, records[i]);
        var k :| k in devices && devices[k].mac == records[i].mac && devices[k].status == Trusted
                 && devices[k].displayName == Some(records[i].note);
        assert devices'[k] == devices[k];
      } else {
        assert devices'[id] == row;
      }
    }
    forall k | k in devices' ensures Among(records, n, devices'[k].mac) {
      if k != id {
        assert Among(records, n - 1, devices[k].mac);
        var i :| 0 <= i < n - 1 && records[i].mac == devices[k].mac;
      }
    }
  }

  lemma {:induction false} RestoreAll(records: seq<Record>, n: nat, now: int, at: int)
    requires n <= |records| && forall i, j | 0 <= i < j < |records| :: records[i].mac != records[j].mac
    ensures Restored(ApplyAll(EMPTY_DB, records, n, now, at).db.devices, records, n)
    ensures ApplyAll(EMPTY_DB, records, n, now, at).count == |ApplyAll(EMPTY_DB, records, n, now, at).db.devices| == n
  {
    hide ApplyRecord, Restored;
    if n == 0 {
      NothingRestored(records);
    } else {
      RestoreAll(records, n - 1, now, at);
      var a := ApplyAll(EMPTY_DB, records, n - 1, now, at);
      NoRowYet(a.db.devices, records, n);
      var id, row := NewRow(a, records[n - 1], now, at);
      RestoreOne(a.db.devices, records, n, id, row);
      assert a.db.devices[id := row].Keys == a.db.devices.Keys + {id};
    }
  }

  lemma NothingRestored(records: seq<Record>)
    ensures Restored(map[], records, 0)
  {
  }

  lemma NoRowYet(devices: map<nat, Device>, records: seq<Record>, n: nat)
    requires 0 < n <= |records| && Restored(devices, records, n - 1)
    requires forall i, j | 0 <= i < j < |records| :: records[i].mac != records[j].mac
    ensures forall k | k in devices :: devices[k].mac != records[n - 1].mac
  {
    forall k | k in devices ensures devices[k].mac != records[n - 1].mac {
      assert Among(records, n - 1, devices[k].mac);
    }
  }

  ghost predicate IsTrustedMac(devices: map<nat, Device>, mac: string) {
    exists id :: id in devices && devices[id].status == Trusted && devices[id].mac == mac
  }

  // A display name in a table filled by an import is the note of a record for its address.
  ghost predicate NamedBy(records: seq<Record>, n: nat, d: Device)
    requires n <= |records|
  {
    d.displayName.Some? && exists i :: 0 <= i < n && records[i] == Record(d.mac, d.displayName.value)
  }

  lemma {:induction false} NamesAreNotes(records: seq<Record>, n: nat, now: int, at: int)
    requires n <= |records|
    ensures forall k | k in ApplyAll(EMPTY_DB, records, n, now, at).db.devices ::
      NamedBy(records, n, ApplyAll(EMPTY_DB, records, n, now, at).db.devices[k])
  {
    if n > 0 {
      hide NamedBy, ApplyRecord;
      NamesAreNotes(records, n - 1, now, at);
      var a := ApplyAll(EMPTY_DB, records, n - 1, now, at);
      forall k | k in ApplyAll(EMPTY_DB, records, n, now, at).db.devices
        ensures NamedBy(records, n, ApplyAll(EMPTY_DB, records, n, now, at).db.devices[k])
      {
        NamedAfter(a, records, n, now, at, k);
      }
    }
  }

  lemma NamedAfter(a: Applied, records: seq<Record>, n: nat, now: int, at: int, k: nat)
    requires 0 < n <= |records| && (k in a.db.devices ==> NamedBy(records, n - 1, a.db.devices[k]))
    requires k in ApplyRecord(a, records[n - 1], now, at, FindByMac(a.db.devices, records[n - 1].mac)).db.devices
    ensures NamedBy(records, n, ApplyRecord(a, records[n - 1], now, at,
      FindByMac(a.db.devices, records[n - 1].mac)).db.devices[k])
  {
    var r := records[n - 1];
    var d := ApplyRecord(a, r, now, at, FindByMac(a.db.devices, r.mac)).db.devices[k];
    if k in a.db.devices && d.displayName == a.db.devices[k].displayName {
      var i :| 0 <= i < n - 1 && records[i] == Record(a.db.devices[k].mac, a.db.devices[k].displayName.value);
      assert records[i] == Record(d.mac, d.displayName.value);
    } else {
      assert r == Record(d.mac, d.displayName.value);
    }
  }

  /**
    Importing an export into an empty table restores every trusted device, with its address and
    its stripped exported name, if and only if the names are exportable; the table then has one
    row for each of them and no other.
   */
  lemma ExportThenImport(devices: map<nat, Device>, text: string, now: int, at: int)
    requires UniqueMacs(devices) && CanonicalMacs(devices) && IsExport(text, devices)
    ensures var result := Imported(EMPTY_DB, Records(SplitLines(text)), now, at);
      && ((forall id | id in TrustedIds(devices) :: Restores(result.db.devices, ExportedRecord(devices[id])))
        <==> Exportable(devices))
      && (Exportable(devices) ==>
            && |Records(SplitLines(text))| == result.count == |result.db.devices| == |TrustedIds(devices)|
            && forall k | k in result.db.devices :: IsTrustedMac(devices, result.db.devices[k].mac))
  {
    hide ApplyAll, ExportLines, ExportedRecord, SplitLines, ExportText, Records, Exportable, Restores, IsTrustedMac,
      UniqueMacs, CanonicalMacs, TrustedIds;
    var ids :| ListsTrusted(devices, ids) && text == ExportText(devices, ids);
    if Exportable(devices) {
      var records := ExportedRecords(devices, ids, |ids|);
      ExportParses(devices, ids);
      ListedSize(devices, ids);
      RecordsDiffer(devices, ids);
      RestoreAll(records, |records|, now, at);
      RestoredIsAll(devices, ids, ApplyAll(EMPTY_DB, records, |records|, now, at).db.devices);
    } else {
      var id := LostRecord(devices, ids);
      LostForGood(devices, ids, id, now, at);
    }
  }

  lemma LostForGood(devices: map<nat, Device>, ids: seq<nat>, id: nat, now: int, at: int)
    requires ListsTrusted(devices, ids) && id in TrustedIds(devices)
    requires ExportedRecord(devices[id]) !in AllBlocks(devices, ids, |ids|)
    ensures !Restores(Imported(EMPTY_DB, Records(SplitLines(ExportText(devices, ids))), now, at).db.devices,
      ExportedRecord(devices[id]))
  {
    hide Records, SplitLines, ExportLines, ExportedRecord, ApplyAll, AllBlocks;
    var records, r := Records(SplitLines(ExportText(devices, ids))), ExportedRecord(devices[id]);
    TextIsBlocks(devices, ids, |ids|);
    NamesAreNotes(records, |records|, now, at);
    var result := ApplyAll(EMPTY_DB, records, |records|, now, at).db.devices;
  }

  lemma RecordsDiffer(devices: map<nat, Device>, ids: seq<nat>)
    requires UniqueMacs(devices) && ListsTrusted(devices, ids)
    ensures var records := ExportedRecords(devices, ids, |ids|);
      forall i, j | 0 <= i < j < |records| :: records[i].mac != records[j].mac
  {
    var records := ExportedRecords(devices, ids, |ids|);
    forall i, j | 0 <= i < j < |records| ensures records[i].mac != records[j].mac {
      ExportedAt(devices, ids, |ids|, i);
      ExportedAt(devices, ids, |ids|, j);
      assert ids[i] != ids[j];
    }
  }

  lemma RestoredIsAll(devices: map<nat, Device>, ids: seq<nat>, result: map<nat, Device>)
    requires ListsTrusted(devices, ids) && Restored(result, ExportedRecords(devices, ids, |ids|), |ids|)
    ensures forall id | id in TrustedIds(devices) :: Restores(result, ExportedRecord(devices[id]))
    ensures forall k | k in result :: IsTrustedMac(devices, result[k].mac)
  {
    var records := ExportedRecords(devices, ids, |ids|);
    forall id | id in TrustedIds(devices) ensures Restores(result, ExportedRecord(devices[id])) {
      var i :| 0 <= i < |ids| && ids[i] == id;
      ExportedAt(devices, ids, |ids|, i);
      assert Restores(result, records[i]);
    }
    forall k | k in result ensures IsTrustedMac(devices, result[k].mac) {
      assert Among(records, |ids|, result[k].mac);
      var i :| 0 <= i < |ids| && records[i].mac == result[k].mac;
      ExportedAt(devices, ids, |ids|, i);
      assert devices[ids[i]].mac == result[k].mac;
    }
  }

  // ---------------------------------------------------------------- names that do not come back

  lemma CommaIsLost(mac: string)
    requires Canonical(mac)
    ensures Records(SplitLines(ExportBlock(mac, "a,b"))) != [Record(mac, "a,b")]
  {
    hide ExportBlock, SplitLines, Strip;
    assert "a,b"[1] == ',';
    StripFixes("a,b");
    LineRoundTrip(mac, "a,b");
  }

  lemma LineBreakIsLost(mac: string)
    requires Canonical(mac)
    ensures Records(SplitLines(ExportBlock(mac, "a\nb"))) != [Record(mac, "a\nb")]
  {
    hide ExportBlock, SplitLines, Strip;
    StripFixes("a\nb");
    LineRoundTrip(mac, "a\nb");
    BreakAtFirst("a\nb", 1);
    OneLineButSpace("a\nb");
    assert !IsSpace("a\nb"[2]);
  }

  /** A second line that is an address becomes a trusted device of its own. */
  lemma SecondLineIsImported(mac: string, other: string)
    requires Canonical(mac) && Canonical(other)
    ensures Records(SplitLines(ExportBlock(mac, "a\n" + other))) == [Record(mac, "a"), Record(other, "")]
  {
    hide ExportBlock, SplitLines, Strip, ParseLine;
    var name := "a\n" + other;
    BlockRecords(mac, name);
    BreakAtFirst(name, 1);
    BreakAtFirst(name + "\n", 1);
    assert FirstLineOf(name) == "a";
    assert AfterFirstLine(name) == other + "\n" + "" by { assert (name + "\n")[2..] == other + "\n"; }
    HeadParses(mac, "a");
    StripFixes("a");
    MacHasNoMarks(other);
    SplitFirstLine(other, "");
    SplitNothing();
    AddressParses(other);
    assert [other][..0] == [];
  }

  lemma AddressParses(mac: string)
    requires Canonical(mac)
    ensures ParseLine(mac) == Some(Record(mac, ""))
  {
    MacHasNoMarks(mac);
    StripFixes(mac);
    NormalizeIdempotent(mac);
    IndexOfAbsent(mac, ',');
    IndexOfAbsent(mac, '#');
    assert mac[..|mac|] == mac && mac[0] in mac;
  }
}
