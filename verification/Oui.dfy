/** Parsing and loading the IEEE vendor table (app/oui.py). */
module Oui {
  import opened Base
  import opened Text
  import opened Mac

  // ---------------------------------------------------------------- one record

  predicate IsUpperHex(c: char) {
    '0' <= c <= '9' || 'A' <= c <= 'F'
  }

  // ([0-9A-F]{2}[-]){2}([0-9A-F]{2}) at the start of s
  predicate TripleHere(s: string) {
    |s| >= 8 && IsUpperHex(s[0]) && IsUpperHex(s[1]) && s[2] == '-' && IsUpperHex(s[3]) && IsUpperHex(s[4])
    && s[5] == '-' && IsUpperHex(s[6]) && IsUpperHex(s[7])
  }

  predicate HasTriple(s: string) {
    s != "" && (TripleHere(s) || HasTriple(s[1..]))
  }

  predicate IsStart(first: string, second: string) {
    Strip(first) == "" && HasTriple(second)
  }

  // re.sub(r"\((hex|base 16)\)", "", s)
  function RemoveMarks(s: string): string
    decreases |s|
  {
    if s == "" then ""
    else if "(hex)" <= s then RemoveMarks(s[5..])
    else if "(base 16)" <= s then RemoveMarks(s[9..])
    else [s[0]] + RemoveMarks(s[1..])
  }

  // re.sub(r"[ \t]+", " ", s); `inRun` says that the previous character belonged to a run.
  function Collapse(s: string, inRun: bool): string {
    if s == "" then ""
    else if s[0] == ' ' || s[0] == '\t' then (if inRun then "" else " ") + Collapse(s[1..], true)
    else [s[0]] + Collapse(s[1..], false)
  }

  function From(s: string, k: nat): string {
    if k <= |s| then s[k..] else ""
  }

  function UpTo(s: string, k: nat): (r: string)
    ensures |r| <= k
  {
    if k <= |s| then s[..k] else s
  }

  // ASCII only, as Lower.
  function UpperChar(c: char): char {
    if 'a' <= c <= 'z' then (c as int - 32) as char else c
  }

  function Upper(s: string): (r: string)
    ensures |r| == |s| && forall i | 0 <= i < |s| :: r[i] == UpperChar(s[i])
  {
    if s == "" then "" else [UpperChar(s[0])] + Upper(s[1..])
  }

  function Assignment(baseLine: string): string {
    Upper(Strip(UpTo(baseLine, 6)))
  }

  function Key(oui: string): string
    requires |oui| == 6
  {
    Lower(WithColons(oui))
  }

  function Owner(hexLine: string): string {
    Collapse(Strip(From(RemoveMarks(hexLine), 10)), false)
  }

  // What one record contributes; an assignment that is not six characters long is dropped.
  function Entry(hexLine: string, baseLine: string): map<string, string> {
    var oui := Assignment(baseLine);
    if |oui| == 6 then map[Key(oui) := Owner(hexLine)] else map[]
  }

  // ---------------------------------------------------------------- the text of a hex line

  ghost predicate HexCapital(c: char) {
    c in "0123456789ABCDEF"
  }

  // Two digits, a hyphen, two digits, a hyphen, two digits.
  ghost predicate TripleAt(s: string, i: int) {
    && 0 <= i && i + 8 <= |s| && s[i + 2] == '-' && s[i + 5] == '-'
    && HexCapital(s[i]) && HexCapital(s[i + 1]) && HexCapital(s[i + 3]) && HexCapital(s[i + 4])
    && HexCapital(s[i + 6]) && HexCapital(s[i + 7])
  }

  lemma TripleMeaning(s: string)
    ensures TripleHere(s) <==> TripleAt(s, 0)
  {
    hide HexCapital, IsUpperHex;
    HexCharacters();
  }

  lemma HexCharacters()
    ensures forall c: char :: HexCapital(c) <==> IsUpperHex(c)
  {
    var all := "0123456789ABCDEF";
    forall c: char | IsUpperHex(c) ensures HexCapital(c) {
      var n := c as int;
      assert all[if n <= 57 then n - 48 else n - 55] == c;
    }
  }

  /** A record starts at a blank line before one with three hyphenated pairs of digits anywhere in it. */
  lemma {:induction false} StartMeaning(first: string, second: string)
    ensures IsStart(first, second) <==> AllSpace(first) && exists i :: TripleAt(second, i)
    decreases |second|
  {
    hide TripleHere, TripleAt, IsSpace;
    StripNothing(first);
    TripleMeaning(second);
    NoTripleBefore(second);
    if second != "" {
      StartMeaning(first, second[1..]);
      forall i | i >= 0 ensures TripleAt(second[1..], i) <==> TripleAt(second, i + 1) {
        TripleShifts(second, i);
      }
      if i :| TripleAt(second[1..], i) {
        NoTripleBefore(second[1..]);
        assert TripleAt(second, i + 1);
      }
      if i :| TripleAt(second, i) {
        assert i == 0 || TripleAt(second[1..], i - 1);
      }
    }
  }

  lemma NoTripleBefore(s: string)
    ensures forall i :: TripleAt(s, i) ==> 0 <= i < |s|
  {
  }

  lemma TripleShifts(s: string, i: int)
    requires s != "" && i >= 0
    ensures TripleAt(s[1..], i) <==> TripleAt(s, i + 1)
  {
    hide HexCapital;
  }

  ghost predicate NoMarks(s: string) {
    forall i | 0 <= i <= |s| :: !("(hex)" <= s[i..]) && !("(base 16)" <= s[i..])
  }

  lemma {:induction false} NothingRemoved(s: string)
    requires NoMarks(s)
    ensures RemoveMarks(s) == s
  {
    assert s[0..] == s;
    if s != "" {
      forall i | 0 <= i <= |s[1..]| ensures !("(hex)" <= s[1..][i..]) && !("(base 16)" <= s[1..][i..]) {
        assert s[1..][i..] == s[i + 1..];
      }
      NothingRemoved(s[1..]);
    }
  }

  lemma LeadingMark(mark: string, after: string)
    requires mark in {"(hex)", "(base 16)"}
    ensures RemoveMarks(mark + after) == RemoveMarks(after)
  {
    var s := mark + after;
    assert s[|mark|..] == after && s[1] == mark[1];
    if mark == "(hex)" {
      assert "(hex)" <= s;
    } else {
      assert "(base 16)" <= s && s[1] == 'b';
    }
  }

  lemma NoMarkHere(s: string)
    requires s != "" && s[0] != '('
    ensures RemoveMarks(s) == [s[0]] + RemoveMarks(s[1..])
  {
  }

  lemma {:induction false} MarkRemoved(before: string, mark: string, after: string)
    requires '(' !in before && mark in {"(hex)", "(base 16)"} && NoMarks(after)
    ensures RemoveMarks(before + mark + after) == before + after
  {
    hide NoMarks, RemoveMarks;
    if before == "" {
      assert before + mark == mark && before + after == after;
      LeadingMark(mark, after);
      NothingRemoved(after);
    } else {
      var rest := before[1..];
      var s := before + mark + after;
      assert s[0] == before[0] && before[0] in before && s[1..] == rest + mark + after;
      NoMarkHere(s);
      MarkRemoved(rest, mark, after);
      assert [before[0]] + (rest + after) == before + after;
    }
  }

  // Spaces and tabs.
  ghost predicate Gap(s: string) {
    s != "" && forall i | 0 <= i < |s| :: s[i] == ' ' || s[i] == '\t'
  }

  ghost predicate Word(s: string) {
    s != "" && forall i | 0 <= i < |s| :: !IsSpace(s[i])
  }

  // The words with the gaps between them.
  ghost function Spread(words: seq<string>, gaps: seq<string>): string
    requires |words| == |gaps| + 1
  {
    if gaps == [] then words[0] else words[0] + (gaps[0] + Spread(words[1..], gaps[1..]))
  }

  ghost function Spaced(words: seq<string>): string
    requires words != []
  {
    if |words| == 1 then words[0] else words[0] + (" " + Spaced(words[1..]))
  }

  lemma {:induction false} CollapseWord(w: string, rest: string)
    requires forall i | 0 <= i < |w| :: !IsSpace(w[i])
    ensures Collapse(w + rest, false) == w + Collapse(rest, false)
  {
    if w == "" {
      assert w + rest == rest;
    } else {
      assert (w + rest)[1..] == w[1..] + rest && (w + rest)[0] == w[0];
      CollapseWord(w[1..], rest);
      assert [w[0]] + (w[1..] + Collapse(rest, false)) == w + Collapse(rest, false);
    }
  }

  lemma {:induction false} CollapseGap(gap: string, rest: string, inRun: bool)
    requires Gap(gap)
    ensures Collapse(gap + rest, inRun) == (if inRun then "" else " ") + Collapse(rest, true)
  {
    assert (gap + rest)[1..] == gap[1..] + rest && (gap + rest)[0] == gap[0];
    if |gap| > 1 {
      CollapseGap(gap[1..], rest, true);
    } else {
      assert gap[1..] + rest == rest;
    }
  }

  lemma {:induction false} SpreadShape(words: seq<string>, gaps: seq<string>)
    requires |words| == |gaps| + 1 && (forall w | w in words :: Word(w))
    ensures var s := Spread(words, gaps); s != "" && !IsSpace(s[0]) && !IsSpace(s[|s| - 1])
  {
    hide IsSpace;
    assert words[0] in words;
    if gaps != [] {
      SpreadShape(words[1..], gaps[1..]);
    }
  }

  lemma RunEndsAtWord(s: string)
    requires s != "" && !IsSpace(s[0])
    ensures Collapse(s, true) == Collapse(s, false)
  {
  }

  lemma {:induction false} CollapseSpread(words: seq<string>, gaps: seq<string>)
    requires |words| == |gaps| + 1 && (forall w | w in words :: Word(w)) && forall g | g in gaps :: Gap(g)
    ensures Collapse(Spread(words, gaps), false) == Spaced(words)
  {
    hide IsSpace, Collapse, Gap;
    assert words[0] in words && Word(words[0]);
    if gaps == [] {
      CollapseWord(words[0], "");
      CollapseNothing();
      assert words[0] + "" == words[0];
    } else {
      assert gaps[0] in gaps;
      var rest := Spread(words[1..], gaps[1..]);
      SpreadShape(words[1..], gaps[1..]);
      CollapseWord(words[0], gaps[0] + rest);
      CollapseGap(gaps[0], rest, false);
      RunEndsAtWord(rest);
      CollapseSpread(words[1..], gaps[1..]);
    }
  }

  lemma CollapseNothing()
    ensures Collapse("", false) == ""
  {
  }

  /**
    The owner on a hex line is what follows the mark, its words with single spaces between them,
    when at least two characters separate the eight of the assignment from the mark.
   */
  lemma OwnerMeaning(triple: string, pad: string, mark: string, gap: string, words: seq<string>, gaps: seq<string>,
      end: string)
    requires |triple| == 8 && |pad| >= 2 && AllSpace(pad) && '(' !in triple + pad && mark in {"(hex)", "(base 16)"}
    requires |words| == |gaps| + 1 && (forall w | w in words :: Word(w)) && forall g | g in gaps :: Gap(g)
    requires AllSpace(gap) && AllSpace(end) && NoMarks(gap + Spread(words, gaps) + end)
    ensures Owner(triple + pad + mark + (gap + Spread(words, gaps) + end)) == Spaced(words)
  {
    hide Spread, Spaced, Word, Gap, Collapse, RemoveMarks, NoMarks, Strip, IsSpace;
    var name := Spread(words, gaps);
    MarkRemoved(triple + pad, mark, gap + name + end);
    SpreadShape(words, gaps);
    AfterTen(triple, pad, gap, name, end);
    CollapseSpread(words, gaps);
  }

  lemma AfterTen(triple: string, pad: string, gap: string, name: string, end: string)
    requires |triple| == 8 && |pad| >= 2 && AllSpace(pad) && AllSpace(gap) && AllSpace(end) && Stripped(name)
    ensures Strip(From(triple + pad + (gap + name + end), 10)) == name
  {
    hide Strip, IsSpace;
    var lead := pad[2..] + gap;
    assert (triple + pad + (gap + name + end))[10..] == lead + (name + end);
    SpaceAtStart(lead, name + end);
    SpaceAtEnd(name, end);
    StripFixes(name);
  }

  // ---------------------------------------------------------------- the nested loops

  predicate StartsRecord(lines: seq<string>) {
    |lines| >= 2 && IsStart(lines[0], lines[1])
  }

  // The inner loop: on to the next start, or to the end.
  function SkipToStart(lines: seq<string>): (r: seq<string>)
    ensures |r| <= |lines|
  {
    if lines == [] || StartsRecord(lines) then lines else SkipToStart(lines[1..])
  }

  /** All entries from here on; of two with the same key the later one wins. */
  function Parse(lines: seq<string>): map<string, string>
    decreases |lines|
  {
    if lines == [] then map[]
    else if !StartsRecord(lines) then Parse(lines[1..])
    else if |lines| == 2 then map[]
    else Entry(lines[1], lines[2]) + Parse(SkipToStart(lines[3..]))
  }

  lemma ParseOther(lines: seq<string>)
    requires lines != [] && !StartsRecord(lines)
    ensures Parse(lines) == Parse(lines[1..])
  {
    hide IsStart, Entry, SkipToStart, Strip, HasTriple;
  }

  lemma ParseRecord(lines: seq<string>)
    requires StartsRecord(lines)
    ensures |lines| == 2 ==> Parse(lines) == map[]
    ensures |lines| > 2 ==> Parse(lines) == Entry(lines[1], lines[2]) + Parse(SkipToStart(lines[3..]))
  {
    hide IsStart, Entry, SkipToStart, Strip, HasTriple;
  }

  method ParseOuiData(lines: seq<string>) returns (result: map<string, string>)
    ensures result == Parse(lines)
  {
    hide Parse, IsStart, SkipToStart, Assignment, Owner, Key;
    assert lines[0..] == lines;
    result := map[];
    var i := 0;
    while i < |lines|
      invariant i <= |lines|
      invariant result + Parse(lines[i..]) == Parse(lines)
    {
      ghost var here := lines[i..];
      assert here[0] == lines[i] && (i + 1 < |lines| ==> here[1] == lines[i + 1]);
      if i + 1 < |lines| && IsStart(lines[i], lines[i + 1]) {
        ParseRecord(here);
        if i + 2 >= |lines| {
          return;
        }
        var oui := Assignment(lines[i + 2]);
        var owner := Owner(lines[i + 1]);
        assert here[2] == lines[i + 2] && here[3..] == lines[i + 3..];
        i := SkipLoop(lines, i + 3);
        ghost var before := result;
        if |oui| == 6 {
          result := result[Key(oui) := owner];
        }
        assert result == before + Entry(here[1], here[2]);
        assert before + (Entry(here[1], here[2]) + Parse(lines[i..])) == result + Parse(lines[i..]);
      } else {
        ParseOther(here);
        assert here[1..] == lines[i + 1..];
        i := i + 1;
      }
    }
    ParseNothing();
    assert lines[i..] == [];
  }

  lemma ParseNothing()
    ensures Parse([]) == map[]
  {
  }

  method SkipLoop(lines: seq<string>, start: nat) returns (i: nat)
    requires start <= |lines|
    ensures start <= i <= |lines| && lines[i..] == SkipToStart(lines[start..])
  {
    hide IsStart;
    i := start;
    while i < |lines| && (i + 1 >= |lines| || !IsStart(lines[i], lines[i + 1]))
      invariant start <= i <= |lines|
      invariant SkipToStart(lines[i..]) == SkipToStart(lines[start..])
    {
      assert lines[i..][1..] == lines[i + 1..];
      i := i + 1;
    }
  }

  // ---------------------------------------------------------------- files laid out as records

  // A blank line, the hex line, the base-16 line, and whatever follows up to the next record.
  datatype OuiRecord = OuiRecord(blank: string, hexLine: string, baseLine: string, rest: seq<string>)

  ghost predicate NoStarts(lines: seq<string>) {
    forall i | 0 <= i < |lines| - 1 :: !IsStart(lines[i], lines[i + 1])
  }

  ghost predicate WellFormed(r: OuiRecord) {
    Strip(r.blank) == "" && HasTriple(r.hexLine) && NoStarts(r.rest)
  }

  function Flatten(records: seq<OuiRecord>): seq<string> {
    if records == [] then []
    else [records[0].blank, records[0].hexLine, records[0].baseLine] + (records[0].rest + Flatten(records[1..]))
  }

  function RecordMap(records: seq<OuiRecord>): map<string, string> {
    if records == [] then map[] else Entry(records[0].hexLine, records[0].baseLine) + RecordMap(records[1..])
  }

  lemma {:induction false} SkipChangesNothing(lines: seq<string>)
    ensures Parse(SkipToStart(lines)) == Parse(lines)
  {
    if lines != [] && !StartsRecord(lines) {
      SkipChangesNothing(lines[1..]);
    }
  }

  lemma {:induction false} SpaceHasNoTriple(s: string)
    requires AllSpace(s)
    ensures !HasTriple(s)
  {
    if s != "" {
      assert IsSpace(s[0]);
      SpaceHasNoTriple(s[1..]);
    }
  }

  lemma BlankHasNoTriple(s: string)
    requires Strip(s) == ""
    ensures !HasTriple(s)
  {
    assert LStrip(s) == "";
    SpaceHasNoTriple(s);
  }

  // Lines without a start in them are passed over, when what follows begins with a blank line.
  lemma {:induction false} PassOver(lines: seq<string>, tail: seq<string>)
    requires NoStarts(lines) && (tail == [] || Strip(tail[0]) == "")
    ensures Parse(lines + tail) == Parse(tail)
  {
    hide Parse, Strip, HasTriple;
    if lines == [] {
      assert lines + tail == tail;
    } else {
      var all := lines + tail;
      if |lines| == 1 && tail != [] {
        BlankHasNoTriple(tail[0]);
      }
      assert |lines| > 1 ==> !IsStart(lines[0], lines[1]);
      assert !StartsRecord(all);
      assert all[1..] == lines[1..] + tail;
      ParseOther(all);
      PassOver(lines[1..], tail);
    }
  }

  /**
    On any preamble without a start and any list of well-formed records, the parser returns
    exactly the map of the records, the last of several with the same key winning.
   */
  lemma {:induction false} ParsesRecords(preamble: seq<string>, records: seq<OuiRecord>)
    requires NoStarts(preamble) && forall r | r in records :: WellFormed(r)
    ensures Parse(preamble + Flatten(records)) == RecordMap(records)
    decreases |records|
  {
    hide Parse, Strip, HasTriple, Entry, NoStarts;
    if records == [] {
      PassOver(preamble, []);
      ParseNothing();
    } else {
      var r, lines := records[0], Flatten(records);
      assert r in records;
      PassOver(preamble, lines);
      forall q | q in records[1..] ensures WellFormed(q) { assert q in records; }
      ParsesRecords(r.rest, records[1..]);
      assert lines[3..] == r.rest + Flatten(records[1..]);
      SkipChangesNothing(lines[3..]);
      ParseRecord(lines);
    }
  }

  // ---------------------------------------------------------------- the key a scan looks up

  lemma {:induction false} LowerColons(h: string)
    requires |h| % 2 == 0
    ensures Lower(WithColons(h)) == WithColons(Lower(h))
  {
    if |h| > 2 {
      LowerColons(h[2..]);
      LowerAppend(h[..2] + ":", WithColons(h[2..]));
      LowerAppend(h[..2], ":");
      assert Lower(":") == ":";
      assert Lower(h)[..2] == Lower(h[..2]);
      assert Lower(h)[2..] == Lower(h[2..]);
    }
  }

  lemma LowerUpper(s: string)
    ensures Lower(Upper(s)) == Lower(s)
  {
    assert forall i | 0 <= i < |s| :: Lower(Upper(s))[i] == Lower(s)[i];
  }

  /**
    The key of a record is the vendor prefix a scan takes from a normalised address exactly
    when the address starts with the record's six digits, in either case.
   */
  lemma KeyIsScanPrefix(raw: string, oui: string)
    requires NormalizeMac(Some(raw)).Some? && |oui| == 6 && forall c | c in oui :: IsHex(c)
    ensures MacPrefix(NormalizeMac(Some(raw)).value) == Some(Key(oui))
       <==> Lower(HexDigits(raw)[..6]) == Lower(oui)
  {
    var digits := Lower(HexDigits(raw));
    PrefixOfMac(digits);
    LowerColons(oui);
    assert digits[..6] == Lower(HexDigits(raw)[..6]);
    LowerOfHex(HexDigits(raw));
    LowerOfHex(oui);
    forall c | c in digits[..6] ensures IsHex(c) { assert c in digits; }
    forall c | c in Lower(oui) ensures IsHex(c) { assert IsLowerHex(c); }
    HexDigitsOfColons(digits[..6]);
    HexDigitsOfColons(Lower(oui));
  }

  /**
    A record whose base-16 line starts with six hex digits, in either case, gives its owner to
    exactly the addresses that start with these digits.
   */
  lemma RecordNamesVendor(hexLine: string, baseLine: string, raw: string)
    requires |baseLine| >= 6 && (forall c | c in baseLine[..6] :: IsHex(c)) && NormalizeMac(Some(raw)).Some?
    ensures var prefix := MacPrefix(NormalizeMac(Some(raw)).value);
      && prefix.Some?
      && (prefix.value in Entry(hexLine, baseLine) <==> Lower(HexDigits(raw)[..6]) == Lower(baseLine[..6]))
      && (prefix.value in Entry(hexLine, baseLine) ==> Entry(hexLine, baseLine)[prefix.value] == Owner(hexLine))
  {
    hide Owner, Strip, Lower, Key;
    var six := baseLine[..6];
    AssignmentOfHex(baseLine);
    LowerUpper(six);
    KeyIsScanPrefix(raw, Upper(six));
    PrefixExists(raw);
  }

  lemma PrefixExists(raw: string)
    requires NormalizeMac(Some(raw)).Some?
    ensures MacPrefix(NormalizeMac(Some(raw)).value).Some?
  {
    PrefixOfMac(Lower(HexDigits(raw)));
  }

  /** A base-16 line that does not begin with six characters, white space at neither end, gives no entry. */
  lemma ShortAssignmentIsDropped(hexLine: string, baseLine: string)
    requires |baseLine| < 6 || IsSpace(baseLine[0]) || IsSpace(baseLine[5])
    ensures Entry(hexLine, baseLine) == map[]
  {
    hide IsSpace, Strip;
    var six := UpTo(baseLine, 6);
    if |six| == 6 {
      StripFixes(six);
    }
    StripShortens(six);
  }

  lemma StripShortens(s: string)
    ensures |Strip(s)| <= |s| && (|Strip(s)| == |s| ==> Strip(s) == s)
  {
  }

  lemma AssignmentOfHex(baseLine: string)
    requires |baseLine| >= 6 && forall c | c in baseLine[..6] :: IsHex(c)
    ensures Assignment(baseLine) == Upper(baseLine[..6]) && |Upper(baseLine[..6])| == 6
    ensures forall c | c in Upper(baseLine[..6]) :: IsHex(c)
  {
    hide Strip, Upper;
    var six := baseLine[..6];
    assert six[0] in six && six[5] in six;
    StripFixes(six);
    UpperHex(six);
  }

  lemma UpperHex(s: string)
    requires forall c | c in s :: IsHex(c)
    ensures |Upper(s)| == |s| && forall c | c in Upper(s) :: IsHex(c)
  {
    forall i | 0 <= i < |s| ensures IsHex(Upper(s)[i]) {
      assert s[i] in s;
    }
  }

  // ---------------------------------------------------------------- loading the table

  function ToMap(rows: seq<(string, string)>): map<string, string> {
    if rows == [] then map[] else ToMap(rows[..|rows| - 1])[rows[|rows| - 1].0 := rows[|rows| - 1].1]
  }

  lemma {:induction false} ToMapAppend(a: seq<(string, string)>, b: seq<(string, string)>)
    ensures ToMap(a + b) == ToMap(a) + ToMap(b)
  {
    if b == [] {
      assert a + b == a;
    } else {
      assert (a + b)[..|a + b| - 1] == a + b[..|b| - 1];
      ToMapAppend(a, b[..|b| - 1]);
    }
  }

  // entries.items() in any order
  method Items(entries: map<string, string>) returns (rows: seq<(string, string)>)
    ensures ToMap(rows) == entries
  {
    rows := [];
    var todo := entries.Keys;
    while todo != {}
      invariant todo <= entries.Keys
      invariant ToMap(rows) == map k | k in entries && k !in todo :: entries[k]
      decreases |todo|
    {
      var k :| k in todo;
      assert (rows + [(k, entries[k])])[..|rows|] == rows;
      rows := rows + [(k, entries[k])];
      todo := todo - {k};
    }
  }

  /** Upserting in batches of any size of at least 1 overrides the old table with the new entries. */
  method UpsertOuiEntries(table: map<string, string>, entries: map<string, string>, batchSize: nat)
    returns (r: map<string, string>)
    requires batchSize >= 1
    ensures r == table + entries
  {
    hide ToMap;
    var rows := Items(entries);
    r := table;
    var start := 0;
    NoRows();
    assert rows[..0] == [];
    while start < |rows|
      invariant start <= |rows| && r == table + ToMap(rows[..start])
      decreases |rows| - start
    {
      var end := if start + batchSize <= |rows| then start + batchSize else |rows|;
      var batch := ToMap(rows[start..end]);
      OneBatch(rows, start, end);
      assert table + (ToMap(rows[..start]) + batch) == r + batch;
      r := r + batch;
      start := end;
    }
    assert rows[..|rows|] == rows;
  }

  lemma NoRows()
    ensures ToMap([]) == map[]
  {
  }

  lemma OneBatch(rows: seq<(string, string)>, start: nat, end: nat)
    requires start <= end <= |rows|
    ensures ToMap(rows[..end]) == ToMap(rows[..start]) + ToMap(rows[start..end])
  {
    ToMapAppend(rows[..start], rows[start..end]);
    assert rows[..start] + rows[start..end] == rows[..end];
  }
}
