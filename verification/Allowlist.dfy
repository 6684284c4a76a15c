/**
  Multi-line allowlists (app/security/service.py): what the CIDR and the host parser have in
  common. Each has its own way to accept an entry, given here as a function.
 */
module Allowlist {
  import opened Base
  import opened Text

  datatype LineError = InvalidLine(line: nat, value: string) | TooMany

  // The first n lines without the blank ones: line number and stripped text.
  function Entries(lines: seq<string>, n: nat): seq<(nat, string)>
    requires n <= |lines|
  {
    if n == 0 then []
    else Entries(lines, n - 1) + EntryOf(n, lines[n - 1])
  }

  function EntryOf(number: nat, raw: string): seq<(nat, string)> {
    if Strip(raw) == "" then [] else [(number, Strip(raw))]
  }

  lemma {:induction false} EntryAt(lines: seq<string>, n: nat, k: nat)
    requires n <= |lines| && k < |Entries(lines, n)|
    ensures exists line :: line in lines && Entries(lines, n)[k].1 == Strip(line) != ""
  {
    hide Strip;
    assert lines[n - 1] in lines;
    if k < |Entries(lines, n - 1)| {
      EntryAt(lines, n - 1, k);
    }
  }

  // The accepted forms of the first n entries, each kept the first time it occurs.
  function Accepted(accept: string -> Option<string>, entries: seq<(nat, string)>, n: nat): seq<string>
    requires n <= |entries|
  {
    if n == 0 then []
    else
      var before := Accepted(accept, entries, n - 1);
      match accept(entries[n - 1].1)
      case Some(v) => if v in before then before else before + [v]
      case None => before
  }

  function Rejected(accept: string -> Option<string>, entries: seq<(nat, string)>, n: nat): seq<LineError>
    requires n <= |entries|
  {
    if n == 0 then []
    else
      Rejected(accept, entries, n - 1)
      + if accept(entries[n - 1].1).Some? then [] else [InvalidLine(entries[n - 1].0, entries[n - 1].1)]
  }

  function EntriesOf(text: string): seq<(nat, string)> {
    Entries(SplitLines(text), |SplitLines(text)|)
  }

  // How many entries are looked at.
  function Considered(text: string, max: nat): (n: nat)
    ensures n <= |EntriesOf(text)| && n <= max
  {
    if |EntriesOf(text)| <= max then |EntriesOf(text)| else max
  }

  function Normalized(accept: string -> Option<string>, max: nat, text: string): seq<string> {
    Accepted(accept, EntriesOf(text), Considered(text, max))
  }

  function Errors(accept: string -> Option<string>, max: nat, text: string): seq<LineError> {
    Rejected(accept, EntriesOf(text), Considered(text, max)) + if |EntriesOf(text)| > max then [TooMany] else []
  }

  // ---------------------------------------------------------------- the loop over the lines

  /** What the loop variables hold when i lines have been read. */
  ghost predicate Progress(accept: string -> Option<string>, max: nat, text: string, i: nat, nonBlank: nat,
      normalized: seq<string>, errors: seq<LineError>)
  {
    && i <= |SplitLines(text)| && nonBlank == |Entries(SplitLines(text), i)| <= max
    && normalized == Accepted(accept, Entries(SplitLines(text), i), nonBlank)
    && errors == Rejected(accept, Entries(SplitLines(text), i), nonBlank)
  }

  lemma {:induction false} OnlyThePrefix(accept: string -> Option<string>, a: seq<(nat, string)>,
      b: seq<(nat, string)>, n: nat)
    requires n <= |a| <= |b| && b[..|a|] == a
    ensures Accepted(accept, a, n) == Accepted(accept, b, n) && Rejected(accept, a, n) == Rejected(accept, b, n)
  {
    if n > 0 {
      assert a[n - 1] == b[..|a|][n - 1] == b[n - 1];
      OnlyThePrefix(accept, a, b, n - 1);
    }
  }

  lemma {:induction false} EntriesGrow(lines: seq<string>, i: nat, n: nat)
    requires i <= n <= |lines|
    ensures Entries(lines, i) <= Entries(lines, n)
  {
    hide EntryOf;
    if i < n {
      EntriesGrow(lines, i, n - 1);
    }
  }

  // There are more entries than are looked at.
  lemma ProgressFull(accept: string -> Option<string>, max: nat, text: string, i: nat)
    requires i < |SplitLines(text)| && |Entries(SplitLines(text), i)| == max < |Entries(SplitLines(text), i + 1)|
    ensures Normalized(accept, max, text) == Accepted(accept, Entries(SplitLines(text), i), max)
    ensures Errors(accept, max, text) == Rejected(accept, Entries(SplitLines(text), i), max) + [TooMany]
  {
    hide Entries, Accepted, Rejected, SplitLines;
    var lines := SplitLines(text);
    EntriesGrow(lines, i, |lines|);
    EntriesGrow(lines, i + 1, |lines|);
    OnlyThePrefix(accept, Entries(lines, i), EntriesOf(text), max);
  }

  // One more line, blank or with an entry for which there is room.
  lemma ProgressLine(accept: string -> Option<string>, max: nat, text: string, i: nat, nonBlank: nat,
      normalized: seq<string>, errors: seq<LineError>)
    requires Progress(accept, max, text, i, nonBlank, normalized, errors) && i < |SplitLines(text)|
    ensures nonBlank <= max
    ensures var value := Strip(SplitLines(text)[i]);
      if value == "" then Progress(accept, max, text, i + 1, nonBlank, normalized, errors)
      else if nonBlank == max then Normalized(accept, max, text) == normalized
        && Errors(accept, max, text) == errors + [TooMany]
      else match accept(value)
        case None => Progress(accept, max, text, i + 1, nonBlank + 1, normalized, errors + [InvalidLine(i + 1, value)])
        case Some(v) => Progress(accept, max, text, i + 1, nonBlank + 1, if v in normalized then normalized
          else normalized + [v], errors)
  {
    hide Strip, SplitLines, Normalized, Errors;
    var lines := SplitLines(text);
    var value := Strip(lines[i]);
    var before, after := Entries(lines, i), Entries(lines, i + 1);
    if value == "" {
      assert after == before;
    } else {
      assert after == before + [(i + 1, value)];
      OnlyThePrefix(accept, before, after, nonBlank);
      if nonBlank == max {
        ProgressFull(accept, max, text, i);
      }
    }
  }

  lemma ProgressStart(accept: string -> Option<string>, max: nat, text: string)
    ensures Progress(accept, max, text, 0, 0, [], [])
  {
  }

  lemma ProgressEnd(accept: string -> Option<string>, max: nat, text: string, nonBlank: nat,
      normalized: seq<string>, errors: seq<LineError>)
    requires Progress(accept, max, text, |SplitLines(text)|, nonBlank, normalized, errors)
    ensures Normalized(accept, max, text) == normalized && Errors(accept, max, text) == errors
  {
  }

  // ---------------------------------------------------------------- what the result means

  lemma {:induction false} AcceptedMeaning(accept: string -> Option<string>, entries: seq<(nat, string)>, n: nat)
    requires n <= |entries|
    ensures Distinct(Accepted(accept, entries, n)) && |Accepted(accept, entries, n)| <= n
    ensures forall v :: v in Accepted(accept, entries, n) <==> exists k :: 0 <= k < n && accept(entries[k].1) == Some(v)
  {
    if n > 0 {
      AcceptedMeaning(accept, entries, n - 1);
    }
  }

  lemma {:induction false} RejectedMeaning(accept: string -> Option<string>, entries: seq<(nat, string)>, n: nat)
    requires n <= |entries|
    ensures Rejected(accept, entries, n) == [] <==> forall k | 0 <= k < n :: accept(entries[k].1).Some?
  {
    if n > 0 {
      RejectedMeaning(accept, entries, n - 1);
    }
  }

  /** No duplicates, at most `max` entries, and exactly the accepted forms of the entries considered. */
  lemma NormalizedMeaning(accept: string -> Option<string>, max: nat, text: string)
    ensures Distinct(Normalized(accept, max, text)) && |Normalized(accept, max, text)| <= max
    ensures forall v :: v in Normalized(accept, max, text) <==>
      exists k :: 0 <= k < Considered(text, max) && accept(EntriesOf(text)[k].1) == Some(v)
    ensures Errors(accept, max, text) == [] <==>
      |EntriesOf(text)| <= max && forall k | 0 <= k < |EntriesOf(text)| :: accept(EntriesOf(text)[k].1).Some?
  {
    hide EntriesOf, Accepted, Rejected;
    AcceptedMeaning(accept, EntriesOf(text), Considered(text, max));
    RejectedMeaning(accept, EntriesOf(text), Considered(text, max));
  }

  // ---------------------------------------------------------------- printing and parsing again

  /** An entry that survives printing and parsing. */
  predicate Stable(accept: string -> Option<string>, v: string) {
    v != "" && Stripped(v) && accept(v) == Some(v)
  }

  lemma {:induction false} StableEntries(accept: string -> Option<string>, lines: seq<string>, n: nat)
    requires n <= |lines| && Distinct(lines) && forall i | 0 <= i < |lines| :: Stable(accept, lines[i])
    ensures |Entries(lines, n)| == n && forall i | 0 <= i < n :: Entries(lines, n)[i] == (i + 1, lines[i])
  {
    hide Stripped, Strip;
    if n > 0 {
      StableEntries(accept, lines, n - 1);
      assert Stable(accept, lines[n - 1]);
      StripFixes(lines[n - 1]);
      assert Entries(lines, n) == Entries(lines, n - 1) + [(n, lines[n - 1])];
    }
  }

  lemma {:induction false} StableAccepted(accept: string -> Option<string>, lines: seq<string>,
      entries: seq<(nat, string)>, n: nat)
    requires Distinct(lines) && forall i | 0 <= i < |lines| :: Stable(accept, lines[i])
    requires |entries| == |lines| && forall i | 0 <= i < |lines| :: entries[i] == (i + 1, lines[i])
    requires n <= |lines|
    ensures Accepted(accept, entries, n) == lines[..n] && Rejected(accept, entries, n) == []
  {
    hide Stripped;
    if n > 0 {
      StableAccepted(accept, lines, entries, n - 1);
      assert Stable(accept, lines[n - 1]);
      assert lines[..n] == lines[..n - 1] + [lines[n - 1]];
    }
  }

  /** A list of distinct stable lines, not too long, is what parsing its own text gives, without errors. */
  lemma PrintThenParse(accept: string -> Option<string>, max: nat, list: seq<string>)
    requires Distinct(list) && |list| <= max
    requires forall i | 0 <= i < |list| :: Stable(accept, list[i]) && OneLine(list[i])
    ensures Normalized(accept, max, JoinLines(list)) == list && Errors(accept, max, JoinLines(list)) == []
  {
    hide Entries, Accepted, Rejected;
    JoinThenSplit(list);
    StableEntries(accept, list, |list|);
    StableAccepted(accept, list, EntriesOf(JoinLines(list)), |list|);
  }

  /**
    When every accepted form is itself stable and on one line, parsing, printing and parsing
    again gives the same list, without errors, whatever the text was.
   */
  lemma ParsePrintParse(accept: string -> Option<string>, max: nat, text: string)
    requires forall v | accept(v).Some? && v != "" && OneLine(v) && Stripped(v) ::
      Stable(accept, accept(v).value) && OneLine(accept(v).value)
    ensures var list := Normalized(accept, max, text);
      Normalized(accept, max, JoinLines(list)) == list && Errors(accept, max, JoinLines(list)) == []
  {
    hide Stable, Stripped, Accepted, Normalized;
    var list := Normalized(accept, max, text);
    NormalizedMeaning(accept, max, text);
    forall i | 0 <= i < |list|
      ensures Stable(accept, list[i]) && OneLine(list[i])
    {
      assert list[i] in list;
      var k :| 0 <= k < Considered(text, max) && accept(EntriesOf(text)[k].1) == Some(list[i]);
      EntryShape(text, k);
    }
    PrintThenParse(accept, max, list);
  }

  lemma EntryShape(text: string, k: nat)
    requires k < |EntriesOf(text)|
    ensures EntriesOf(text)[k].1 != "" && OneLine(EntriesOf(text)[k].1) && Stripped(EntriesOf(text)[k].1)
  {
    hide Strip, Stripped;
    var lines := SplitLines(text);
    EntryAt(lines, |lines|, k);
    var line :| line in lines && EntriesOf(text)[k].1 == Strip(line) != "";
    SplitLinesAreLines(text);
    StripStrips(line);
  }
}
