/** Exporting the trusted devices, and what importing the export gives back (app/api/routes_import_export.py). */
module Export {
  import opened Base
  import opened Tables
  import opened Text
  import opened Mac
  import opened ImportExport

  const HEADER := "# Trusted Devices Export"

  // d.display_name or d.hostname or d.notes or "Unknown"
  function ExportName(d: Device): string {
    if !Blank(d.displayName) then d.displayName.value
    else if !Blank(d.hostname) then d.hostname.value
    else if !Blank(d.notes) then d.notes.value
    else "Unknown"
  }

  function Mark(mac: string): string {
    mac + " #"
  }

  // "{mac} # {name}"
  function ExportLine(mac: string, name: string): string {
    Mark(mac) + (" " + name)
  }

  function ExportLines(devices: map<nat, Device>, ids: seq<nat>, n: nat): seq<string>
    requires n <= |ids| && forall i | 0 <= i < |ids| :: ids[i] in devices
  {
    if n == 0 then [HEADER]
    else ExportLines(devices, ids, n - 1) + [ExportLine(devices[ids[n - 1]].mac, ExportName(devices[ids[n - 1]]))]
  }

  // ids lists the trusted devices, each once.
  ghost predicate ListsTrusted(devices: map<nat, Device>, ids: seq<nat>) {
    && Distinct(ids)
    && (forall i | 0 <= i < |ids| :: ids[i] in devices && devices[ids[i]].status == Trusted)
    && (forall id | id in devices && devices[id].status == Trusted :: id in ids)
  }

  /** The text is an export of these devices: the trusted ones, each once, in some order. */
  ghost predicate IsExport(text: string, devices: map<nat, Device>) {
    exists ids :: ListsTrusted(devices, ids) && text == ExportText(devices, ids)
  }

  function ExportText(devices: map<nat, Device>, ids: seq<nat>): string
    requires forall i | 0 <= i < |ids| :: ids[i] in devices
  {
    JoinLines(ExportLines(devices, ids, |ids|)) + "\n"
  }

  // ids and todo together are the trusted devices, each once.
  ghost predicate PartlyListed(devices: map<nat, Device>, ids: seq<nat>, todo: set<nat>) {
    && Distinct(ids)
    && (forall id | id in todo :: id in devices && devices[id].status == Trusted && id !in ids)
    && (forall i | 0 <= i < |ids| :: ids[i] in devices && devices[ids[i]].status == Trusted)
    && (forall id | id in devices && devices[id].status == Trusted :: id in todo || id in ids)
  }

  lemma ListOneMore(devices: map<nat, Device>, ids: seq<nat>, todo: set<nat>, id: nat)
    requires PartlyListed(devices, ids, todo) && id in todo
    ensures PartlyListed(devices, ids + [id], todo - {id})
    ensures ExportLines(devices, ids + [id], |ids| + 1)
         == ExportLines(devices, ids, |ids|) + [ExportLine(devices[id].mac, ExportName(devices[id]))]
  {
    hide ExportLine, ExportName;
    LinesPrefix(devices, ids, id, |ids|);
  }

  method ExportTrusted(s: Session) returns (text: string)
    ensures IsExport(text, s.db.devices)
  {
    hide ExportLine, ExportName;
    var devices := s.db.devices;
    var lines := [HEADER];
    ghost var ids := [];
    var todo := set id | id in devices && devices[id].status == Trusted;
    while todo != {}
      invariant PartlyListed(devices, ids, todo)
      invariant lines == ExportLines(devices, ids, |ids|)
      decreases |todo|
    {
      hide PartlyListed;
      var id :| id in todo;
      ListOneMore(devices, ids, todo, id);
      var d := devices[id];
      lines := lines + [ExportLine(d.mac, ExportName(d))];
      ids := ids + [id];
      todo := todo - {id};
    }
    text := JoinLines(lines) + "\n";
    assert ListsTrusted(devices, ids) && text == ExportText(devices, ids);
  }

  lemma {:induction false} LinesPrefix(devices: map<nat, Device>, ids: seq<nat>, id: nat, n: nat)
    requires n <= |ids| && id in devices && forall i | 0 <= i < |ids| :: ids[i] in devices
    ensures ExportLines(devices, ids + [id], n) == ExportLines(devices, ids, n)
  {
    if n > 0 {
      LinesPrefix(devices, ids, id, n - 1);
    }
  }

  // ---------------------------------------------------------------- one line

  lemma MacHasNoMarks(mac: string)
    requires Canonical(mac)
    ensures |mac| == 17 && ',' !in mac && '#' !in mac && OneLine(mac) && Stripped(mac)
  {
    CanonicalCharacters(mac);
    assert mac[0] in mac && mac[16] in mac;
  }

  // What follows the exporter's " #" once the importer has stripped the line.
  function Tail(name: string): string {
    RStrip(" " + name)
  }

  lemma MarkShape(mac: string)
    requires Canonical(mac)
    ensures |Mark(mac)| == 19 && ',' !in Mark(mac) && Stripped(Mark(mac)) && Mark(mac)[0] != '#'
    ensures IndexOf(Mark(mac), '#') == 18 && Mark(mac)[..18] == mac + " "
  {
    MacHasNoMarks(mac);
    var p := Mark(mac);
    assert forall i | 0 <= i < 17 :: p[i] == mac[i] && mac[i] in mac;
    assert p[17] == ' ' && p[18] == '#';
    IndexOfAt(p, '#', 18);
  }

  lemma StripAfter(a: string, b: string)
    requires a != "" && Stripped(a)
    ensures Strip(a + b) == a + RStrip(b)
  {
    assert LStrip(a + b) == a + b;
    RStripAppend(a, b);
  }

  lemma StrippedLine(mac: string, name: string)
    requires Canonical(mac)
    ensures Strip(ExportLine(mac, name)) == Mark(mac) + Tail(name)
  {
    MarkShape(mac);
    StripAfter(Mark(mac), " " + name);
  }

  lemma StrippedTail(name: string)
    ensures Strip(Tail(name)) == LStrip(Tail(name)) == Strip(name)
  {
    hide LStrip, RStrip, IsSpace;
    var b := " " + name;
    StripCommutes(b);
    StripCommutes(RStrip(b));
    RStripTwice(b);
    LStripSpace(name);
  }

  lemma RStripTwice(s: string)
    ensures RStrip(RStrip(s)) == RStrip(s)
  {
  }

  lemma LStripSpace(name: string)
    ensures LStrip(" " + name) == LStrip(name)
  {
    hide LStrip;
    var s := " " + name;
    assert s[1..] == name;
    LStripStep(s, name);
  }

  lemma LStripStep(s: string, rest: string)
    requires s != "" && IsSpace(s[0]) && rest == s[1..]
    ensures LStrip(s) == LStrip(rest)
  {
    hide IsSpace;
  }

  lemma AddressOf(mac: string)
    requires Canonical(mac)
    ensures Strip(mac + " ") == mac
    ensures Lower(mac) != "mac" && Lower(mac) != "mac address"
    ensures NormalizeMac(Some(mac)) == Some(mac)
  {
    hide Strip, Canonical, NormalizeMac, IsSpace;
    MacHasNoMarks(mac);
    StripAfter(mac, " ");
    BlankStrips();
    NormalizeIdempotent(mac);
  }

  lemma BlankStrips()
    ensures RStrip(" ") == ""
  {
  }

  // Without a comma the line splits at its first '#', which is the exporter's own.
  lemma ColumnsAtHash(p: string, rest: string)
    requires IndexOf(p, '#') == |p| - 1 && ',' !in p && ',' !in rest
    ensures Columns(p + rest) == (Strip(p[..|p| - 1]), Strip(rest))
  {
    hide Strip, IndexOf;
    var line := p + rest;
    IndexOfAbsent(line, ',');
    assert forall i | 0 <= i < |p| :: line[i] == p[i];
    IndexOfAt(line, '#', |p| - 1);
    assert line[..|p| - 1] == p[..|p| - 1];
    assert line[|p|..] == rest;
  }

  // With one, the note is what follows it: strictly shorter than the stripped name.
  lemma ColumnsAtComma(prefix: string, rest: string)
    requires ',' !in prefix && ',' in rest
    ensures |Columns(prefix + rest).1| < |LStrip(rest)|
  {
    hide Strip, LStrip, IndexOf;
    var line := prefix + rest;
    var k := IndexOf(line, ',');
    IndexOfAbsent(line, ',');
    CommaAfter(prefix, rest, k);
    WholeIsLonger(line[k + 1..]);
  }

  // The first comma is in rest, and past the white space it begins with.
  lemma CommaAfter(prefix: string, rest: string, k: nat)
    requires ',' !in prefix && k < |prefix + rest| && (prefix + rest)[k] == ','
    ensures k >= |prefix| + |rest| - |LStrip(rest)|
  {
    hide LStrip;
    assert forall i | 0 <= i < |prefix| :: (prefix + rest)[i] == prefix[i];
    assert k >= |prefix|;
    assert rest[k - |prefix|] == ',' && !IsSpace(',');
  }

  lemma WholeIsLonger(s: string)
    ensures |Strip(s)| <= |s|
  {
  }

  lemma CommaSurvives(name: string)
    ensures ',' in Tail(name) <==> ',' in name
  {
    var b := " " + name;
    var t := Tail(name);
    if ',' in name {
      var i :| 0 <= i < |name| && name[i] == ',';
      assert b[i + 1] == ',' && !IsSpace(',');
      assert t[i + 1] == ',';
    }
    if ',' in t {
      var i :| 0 <= i < |t| && t[i] == ',';
      assert b[i] == ',' && name[i - 1] == ',';
    }
  }

  // A first line as exported: it gives its address and stripped note, or, read as CSV, something shorter.
  lemma HeadParses(mac: string, name: string)
    requires Canonical(mac)
    ensures var r := ParseLine(ExportLine(mac, name));
      if ',' in name then r.Some? ==> |r.value.note| < |Strip(name)| else r == Some(Record(mac, Strip(name)))
  {
    StrippedLine(mac, name);
    StrippedTail(name);
    CommaSurvives(name);
    MarkShape(mac);
    AddressOf(mac);
    LineParses(mac, Mark(mac), Tail(name), ExportLine(mac, name), Strip(name));
  }

  lemma LineParses(mac: string, mark: string, tail: string, raw: string, note: string)
    requires |mark| == 19 && mark[0] != '#' && IndexOf(mark, '#') == 18 && ',' !in mark && Strip(mark[..18]) == mac
    requires Strip(raw) == mark + tail && Strip(tail) == LStrip(tail) == note
    requires Lower(mac) != "mac" && Lower(mac) != "mac address" && NormalizeMac(Some(mac)) == Some(mac)
    ensures var r := ParseLine(raw);
      if ',' in tail then r.Some? ==> |r.value.note| < |note| else r == Some(Record(mac, note))
  {
    var line := mark + tail;
    assert line != "" && line[0] == mark[0];
    if ',' !in tail {
      ColumnsAtHash(mark, tail);
    } else {
      ColumnsAtComma(mark, tail);
    }
  }

  // ---------------------------------------------------------------- what the importer reads of it

  function ExportBlock(mac: string, name: string): string {
    ExportLine(mac, name) + "\n"
  }

  // No comma, and no line break before the last visible character.
  ghost predicate Importable(name: string) {
    ',' !in name && OneLine(RStrip(name))
  }

  lemma NoteIsShort(raw: string)
    requires ParseLine(raw).Some?
    ensures |ParseLine(raw).value.note| < |Strip(raw)|
  {
    var line := Strip(raw);
    var comma, hash := IndexOf(line, ','), IndexOf(line, '#');
    if comma < |line| {
      WholeIsLonger(line[comma + 1..]);
    } else if hash < |line| {
      WholeIsLonger(line[hash + 1..]);
    }
  }

  lemma {:induction false} RecordOrigin(lines: seq<string>, r: Record)
    requires r in Records(lines)
    ensures exists l :: l in lines && ParseLine(l) == Some(r)
  {
    hide ParseLine;
    var rest, last := lines[..|lines| - 1], lines[|lines| - 1];
    assert lines == rest + [last];
    if r in Records(rest) {
      RecordOrigin(rest, r);
    }
  }

  // A note is a proper part of the text it was read from.
  lemma NotesAreShort(text: string, r: Record)
    requires r in Records(SplitLines(text))
    ensures |r.note| < |Strip(text)|
  {
    hide ParseLine, Strip, SplitLines;
    RecordOrigin(SplitLines(text), r);
    var l :| l in SplitLines(text) && ParseLine(l) == Some(r);
    NoteIsShort(l);
    var a, b := LinesArePieces(text, l);
    StripPart(text, a, b);
  }

  lemma {:induction false} RecordsAppend(a: seq<string>, b: seq<string>)
    ensures Records(a + b) == Records(a) + Records(b)
  {
    hide ParseLine;
    if b == [] {
      assert a + b == a;
    } else {
      assert (a + b)[..|a + b| - 1] == a + b[..|b| - 1];
      RecordsAppend(a, b[..|b| - 1]);
    }
  }

  // What is left of a terminated name after its first line.
  function AfterFirstLine(name: string): string {
    var t := name + "\n";
    var k := BreakAt(t);
    if k < |t| then t[k + BreakWidth(t, k)..] else ""
  }

  function FirstLineOf(name: string): string {
    name[..BreakAt(name)]
  }

  lemma TerminatedBreak(name: string)
    ensures BreakAt(name + "\n") == BreakAt(name)
  {
    var t := name + "\n";
    assert t[|name|] == '\n';
    BreakAtFirst(t, BreakAt(name));
  }

  lemma BlockSplits(mac: string, name: string)
    requires Canonical(mac)
    ensures SplitLines(ExportBlock(mac, name))
      == [ExportLine(mac, FirstLineOf(name))] + SplitLines(AfterFirstLine(name))
  {
    hide SplitLines, BreakWidth, BreakAt, OneLine;
    TerminatedBreak(name);
    var t, p, k := name + "\n", Mark(mac) + " ", BreakAt(name);
    MarkIsOneLine(mac);
    assert ExportBlock(mac, name) == p + t;
    SplitAfter(p, t, k);
    assert p + t[..k] == ExportLine(mac, name[..k]) by { assert t[..k] == name[..k]; }
  }

  lemma MarkIsOneLine(mac: string)
    requires Canonical(mac)
    ensures OneLine(Mark(mac) + " ")
  {
    MacHasNoMarks(mac);
    forall c | c in Mark(mac) + " " ensures !IsLineBreak(c) {
      assert c in mac || c == ' ' || c == '#';
    }
  }

  lemma SplitAfter(p: string, t: string, k: nat)
    requires OneLine(p) && k < |t| && IsLineBreak(t[k]) && forall i | 0 <= i < k :: !IsLineBreak(t[i])
    ensures SplitLines(p + t) == [p + t[..k]] + SplitLines(t[k + BreakWidth(t, k)..])
  {
    hide SplitLines, BreakWidth, IsLineBreak;
    var s := p + t;
    forall i | 0 <= i < |p| + k ensures !IsLineBreak(s[i]) {
      if i < |p| {
        assert s[i] == p[i] && p[i] in p;
      } else {
        assert s[i] == t[i - |p|];
      }
    }
    assert s[|p| + k] == t[k];
    BreakAtFirst(s, |p| + k);
    SplitUnfolds(s);
    ShiftedWidth(p, t, k);
    assert s[..|p| + k] == p + t[..k];
    assert s[|p| + (k + BreakWidth(t, k))..] == t[k + BreakWidth(t, k)..];
  }

  lemma ShiftedWidth(p: string, t: string, k: nat)
    requires k < |t|
    ensures BreakWidth(p + t, |p| + k) == BreakWidth(t, k)
  {
    assert (p + t)[|p| + k] == t[k];
    assert k + 1 < |t| ==> (p + t)[|p| + k + 1] == t[k + 1];
  }

  lemma AfterIsPart(name: string)
    ensures |Strip(AfterFirstLine(name))| <= |Strip(name)|
    ensures (forall i | BreakAt(name) <= i < |name| :: IsSpace(name[i])) ==> Strip(AfterFirstLine(name)) == ""
  {
    hide BreakAt, BreakWidth, Strip, IsSpace;
    var t, k := name + "\n", BreakAt(name);
    TerminatedBreak(name);
    var d := k + BreakWidth(t, k);
    var rest := t[d..];
    assert t[d..|t|] == rest;
    StripPart(t, d, |t|);
    BreaksAreSpace('\n');
    SpaceAtEnd(name, "\n");
    if forall i | k <= i < |name| :: IsSpace(name[i]) {
      forall i | 0 <= i < |rest| ensures IsSpace(rest[i]) {
        assert rest[i] == t[d + i];
      }
      StripNothing(rest);
    }
  }

  lemma BlockRecords(mac: string, name: string)
    requires Canonical(mac)
    ensures var head := ParseLine(ExportLine(mac, FirstLineOf(name)));
      Records(SplitLines(ExportBlock(mac, name)))
        == (if head.Some? then [head.value] else []) + Records(SplitLines(AfterFirstLine(name)))
  {
    hide ParseLine, ExportBlock, SplitLines, ExportLine;
    BlockSplits(mac, name);
    var head := ExportLine(mac, FirstLineOf(name));
    RecordsAppend([head], SplitLines(AfterFirstLine(name)));
    assert [head][..0] == [];
  }

  // Of a name that is not importable every note read back is too short to be the name.
  lemma BlockFails(mac: string, name: string, r: Record)
    requires Canonical(mac) && !Importable(name) && r in Records(SplitLines(ExportBlock(mac, name)))
    ensures |r.note| < |Strip(name)|
  {
    hide ParseLine, SplitLines, BreakAt, Strip, ExportBlock, ExportLine, FirstLineOf, AfterFirstLine;
    BlockRecords(mac, name);
    AfterIsPart(name);
    if r in Records(SplitLines(AfterFirstLine(name))) {
      NotesAreShort(AfterFirstLine(name), r);
    } else {
      HeadParses(mac, FirstLineOf(name));
      FirstLineShorter(name);
    }
  }

  lemma FirstLineShorter(name: string)
    ensures |Strip(FirstLineOf(name))| <= |Strip(name)|
    ensures !Importable(name) && ',' !in FirstLineOf(name) ==> |Strip(FirstLineOf(name))| < |Strip(name)|
  {
    hide BreakAt, Strip, RStrip;
    var k := BreakAt(name);
    StripPart(name, 0, k);
    assert name[0..k] == name[..k];
    OneLineButSpace(name);
    if !Importable(name) && ',' !in name[..k] {
      var p: int;
      if ',' in name {
        assert name == name[..k] + name[k..];
        var q :| 0 <= q < |name[k..]| && name[k..][q] == ',';
        p := k + q;
      } else {
        p :| k <= p < |name| && !IsSpace(name[p]);
      }
      StripPrefix(name, k, p);
    }
  }

  lemma BlockWorks(mac: string, name: string)
    requires Canonical(mac) && Importable(name)
    ensures Records(SplitLines(ExportBlock(mac, name))) == [Record(mac, Strip(name))]
  {
    hide ParseLine, SplitLines, BreakAt, Strip, RStrip, ExportBlock, ExportLine, AfterFirstLine;
    var k := BreakAt(name);
    BlockRecords(mac, name);
    OneLineButSpace(name);
    AfterIsPart(name);
    var later := Records(SplitLines(AfterFirstLine(name)));
    if later != [] {
      NotesAreShort(AfterFirstLine(name), later[0]);
    }
    HeadParses(mac, name[..k]);
    assert name == name[..k] + name[k..];
    SpaceAtEnd(name[..k], name[k..]);
  }

  /**
    An exported line, as the importer splits and parses it, comes back as its address and its
    stripped name exactly when the name has no comma, which would make it CSV, and no line
    break other than at its end.
   */
  lemma LineRoundTrip(mac: string, name: string)
    requires Canonical(mac)
    ensures Records(SplitLines(ExportBlock(mac, name))) == [Record(mac, Strip(name))]
      <==> ',' !in name && OneLine(RStrip(name))
  {
    hide ExportBlock, SplitLines, Strip, RStrip;
    if Importable(name) {
      BlockWorks(mac, name);
    } else if Records(SplitLines(ExportBlock(mac, name))) == [Record(mac, Strip(name))] {
      BlockFails(mac, name, Record(mac, Strip(name)));
    }
  }

  // ---------------------------------------------------------------- the text itself

  predicate NotBlank(name: Option<string>) {
    name.Some? && name.value != ""
  }

  /** The exported name: the first of display name, host name and notes that is not empty, else "Unknown". */
  lemma ExportNameIsFirstGiven(d: Device)
    ensures var given := [d.displayName, d.hostname, d.notes];
      || (exists k :: 0 <= k < 3 && NotBlank(given[k]) && ExportName(d) == given[k].value
                      && forall j | 0 <= j < k :: !NotBlank(given[j]))
      || (ExportName(d) == "Unknown" && forall j | 0 <= j < 3 :: !NotBlank(given[j]))
  {
    var given := [d.displayName, d.hostname, d.notes];
    var k := if NotBlank(given[0]) then 0 else if NotBlank(given[1]) then 1 else 2;
    assert NotBlank(given[k]) ==> ExportName(d) == given[k].value && forall j | 0 <= j < k :: !NotBlank(given[j]);
  }

  /** The lines of the file, as they are written. */
  lemma ExportLineText(mac: string, name: string)
    ensures ExportLine(mac, name) == mac + " # " + name && HEADER == "# Trusted Devices Export"
  {
    assert mac + " #" + (" " + name) == mac + " # " + name;
  }
}
