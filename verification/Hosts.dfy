/** Trusted hosts (app/security/service.py): Host headers, the host allowlist, the check. */
module Hosts {
  import opened Base
  import opened Text
  import opened Allowlist

  const MAX_HOST_ENTRIES: nat := 50

  /** Drop white space, case and the port. */
  function NormalizeRequestHost(header: string): string {
    var value := Lower(Strip(header));
    if value == "" then ""
    else if value[0] == '[' then
      var end := IndexOf(value, ']');
      if end == |value| then value else value[1..end]
    else if Count(value, ':') == 1 then value[..IndexOf(value, ':')]
    else value
  }

  // ---------------------------------------------------------------- acceptable hosts

  predicate IsAlnum(c: char) {
    'a' <= c <= 'z' || '0' <= c <= '9'
  }

  // [a-z0-9]([a-z0-9-]{0,61}[a-z0-9])?
  predicate IsLabel(s: string) {
    1 <= |s| <= 63 && IsAlnum(s[0]) && IsAlnum(s[|s| - 1]) && forall i | 0 <= i < |s| :: IsAlnum(s[i]) || s[i] == '-'
  }

  predicate IsDnsName(s: string)
    decreases |s|
  {
    var k := IndexOf(s, '.');
    IsLabel(s[..k]) && (k == |s| || IsDnsName(s[k + 1..]))
  }

  // Which texts are IP address literals, and which of those are private or loopback (Python's ipaddress).
  datatype HostIps = HostIps(isIp: string -> bool, isPrivate: string -> bool)

  /**
    An IPv4 literal has no colon and no white space; an IPv6 literal has two colons or more, and
    only a zone id at its end could hold other characters than digits and colons.
   */
  ghost predicate Lawful(ips: HostIps) {
    forall s | ips.isIp(s) ::
      && s != "" && !IsSpace(s[0]) && s[0] != '['
      && Count(s, ':') != 1 && (Count(s, ':') == 0 ==> Stripped(s))
  }

  predicate Suspect(host: string) {
    host == "" || '*' in host || host[0] == '.' || host[|host| - 1] == '.'
  }

  // What a stripped line contributes to the allowlist.
  function Accept(ips: HostIps): string -> Option<string> {
    (line: string) =>
      var value := Lower(line);
      if '/' in value || ' ' in value then None
      else
        var host := NormalizeRequestHost(value);
        if Suspect(host) || !(ips.isIp(host) || IsDnsName(host)) then None else Some(host)
  }

  method ParseAndNormalizeHosts(ips: HostIps, text: string) returns (normalized: seq<string>, errors: seq<LineError>)
    ensures normalized == Normalized(Accept(ips), MAX_HOST_ENTRIES, text)
    ensures errors == Errors(Accept(ips), MAX_HOST_ENTRIES, text)
  {
    hide Progress, Normalized, Errors, Strip, Lower, NormalizeRequestHost, Suspect, IsDnsName;
    normalized, errors := [], [];
    var lines := SplitLines(text);
    var nonBlank: nat := 0;
    var seen: set<string> := {};
    ProgressStart(Accept(ips), MAX_HOST_ENTRIES, text);
    for i := 0 to |lines|
      invariant Progress(Accept(ips), MAX_HOST_ENTRIES, text, i, nonBlank, normalized, errors)
      invariant seen == set v | v in normalized
    {
      var stripped := Strip(lines[i]);
      var value := Lower(stripped);
      ProgressLine(Accept(ips), MAX_HOST_ENTRIES, text, i, nonBlank, normalized, errors);
      if value == "" {
        continue;
      }
      if nonBlank + 1 > MAX_HOST_ENTRIES {
        errors := errors + [TooMany];
        return;
      }
      nonBlank := nonBlank + 1;
      if '/' in value || ' ' in value {
        errors := errors + [InvalidLine(i + 1, stripped)];
        continue;
      }
      var host := NormalizeRequestHost(value);
      if Suspect(host) {
        errors := errors + [InvalidLine(i + 1, stripped)];
        continue;
      }
      if !ips.isIp(host) {
        if !IsDnsName(host) {
          errors := errors + [InvalidLine(i + 1, stripped)];
          continue;
        }
      }
      if host in seen {
        continue;
      }
      seen := seen + {host};
      normalized := normalized + [host];
    }
    ProgressEnd(Accept(ips), MAX_HOST_ENTRIES, text, nonBlank, normalized, errors);
  }

  // ---------------------------------------------------------------- normal forms

  ghost predicate IsNormal(n: string) {
    n == "" || (Stripped(n) && Lower(n) == n && if n[0] == '[' then ']' !in n else Count(n, ':') != 1)
  }

  lemma WholeStrip(s: string)
    ensures |Strip(s)| <= |s|
    ensures |Strip(s)| == |s| ==> Strip(s) == s
  {
  }

  /** Exactly these texts are unchanged by normalisation; "a:80" is not, although "[a:80]" leads to it. */
  lemma NormalFormsAreFixed(n: string)
    ensures NormalizeRequestHost(n) == n <==> IsNormal(n)
  {
    hide Strip, Lower, Count;
    WholeStrip(n);
    StripFixes(n);
    if n != "" {
      IndexOfAbsent(n, ']');
      LowerAtStart(n);
    }
  }

  lemma LowerAtStart(n: string)
    requires n != ""
    ensures Lower(n) != "" && (Lower(n)[0] == '[' <==> n[0] == '[')
  {
  }

  lemma {:induction false} DnsCharacters(s: string)
    requires IsDnsName(s)
    ensures s != "" && IsAlnum(s[0]) && IsAlnum(s[|s| - 1])
    ensures forall c | c in s :: IsAlnum(c) || c == '-' || c == '.'
    decreases |s|
  {
    var k := IndexOf(s, '.');
    forall c | c in s[..k] ensures IsAlnum(c) || c == '-' {
      var i :| 0 <= i < k && s[..k][i] == c;
    }
    if k < |s| {
      DnsCharacters(s[k + 1..]);
      assert s == s[..k] + ['.'] + s[k + 1..];
    } else {
      assert s[..k] == s;
    }
  }

  // White space before the closing bracket: it can only belong to a zone id.
  predicate SpaceInZone(value: string) {
    var end := IndexOf(value, ']');
    value != "" && value[0] == '[' && 1 < end < |value| && IsSpace(value[end - 1])
  }

  lemma NoColonBefore(value: string)
    ensures Count(value[..IndexOf(value, ':')], ':') == 0
  {
    var k := IndexOf(value, ':');
    forall c | c in value[..k] ensures c != ':' {
      var i :| 0 <= i < k && value[..k][i] == c;
    }
  }

  // Between the brackets, before the colon, or everything.
  lemma PartOf(value: string)
    requires value != "" && Stripped(value) && Lower(value) == value
    ensures var host := NormalizeRequestHost(value);
      && (forall c | c in host :: c in value)
      && (value[0] != '[' && Count(value, ':') != 1 ==> host == value)
      && (value[0] != '[' && Count(value, ':') == 1 ==> Count(host, ':') == 0)
      && (value[0] == '[' && IndexOf(value, ']') == |value| ==> host == value)
      && (value[0] == '[' && IndexOf(value, ']') < |value| ==> host == value[1..IndexOf(value, ']')])
  {
    hide Strip, Lower, Count, Stripped;
    StripFixes(value);
    NoColonBefore(value);
  }

  lemma LowerSlice(v: string, a: nat, b: nat)
    requires Lower(v) == v && a <= b <= |v|
    ensures Lower(v[a..b]) == v[a..b]
  {
    forall i | 0 <= i < b - a ensures Lower(v[a..b])[i] == v[a..b][i] {
      assert LowerChar(v[a + i]) == v[a + i];
    }
  }

  lemma PartIsLower(value: string)
    requires value != "" && Stripped(value) && Lower(value) == value
    ensures Lower(NormalizeRequestHost(value)) == NormalizeRequestHost(value)
  {
    hide Strip, Lower, Count, Stripped, IndexOf;
    StripFixes(value);
    if value[0] == '[' {
      var end := IndexOf(value, ']');
      if end < |value| {
        LowerSlice(value, 1, end);
      }
    } else if Count(value, ':') == 1 {
      LowerSlice(value, 0, IndexOf(value, ':'));
      assert value[0..IndexOf(value, ':')] == value[..IndexOf(value, ':')];
    }
  }

  // ---------------------------------------------------------------- what is accepted

  ghost predicate NameCharacter(c: char) {
    c in "abcdefghijklmnopqrstuvwxyz" || c in "0123456789" || c == '-'
  }

  // At most 63 small letters, digits and inner hyphens.
  ghost predicate LabelText(s: string) {
    1 <= |s| <= 63 && (forall i | 0 <= i < |s| :: NameCharacter(s[i])) && s[0] != '-' && s[|s| - 1] != '-'
  }

  ghost function JoinDots(labels: seq<string>): string
    requires labels != []
  {
    if |labels| == 1 then labels[0] else labels[0] + ("." + JoinDots(labels[1..]))
  }

  ghost predicate Spells(labels: seq<string>, s: string) {
    labels != [] && (forall l | l in labels :: LabelText(l)) && JoinDots(labels) == s
  }

  lemma NameCharacters()
    ensures forall c: char :: NameCharacter(c) <==> IsAlnum(c) || c == '-'
  {
    var letters, digits := "abcdefghijklmnopqrstuvwxyz", "0123456789";
    forall c: char | IsAlnum(c) ensures NameCharacter(c) {
      if c >= 'a' {
        assert letters[c as int - 97] == c;
      } else {
        assert digits[c as int - 48] == c;
      }
    }
  }

  lemma LabelMeaning(s: string)
    ensures LabelText(s) <==> IsLabel(s)
  {
    hide NameCharacter;
    NameCharacters();
  }

  lemma LabelHasNoDot(s: string)
    requires LabelText(s)
    ensures '.' !in s
  {
    hide NameCharacter;
    NameCharacters();
    assert !NameCharacter('.');
  }

  lemma {:induction false} SplitDots(s: string) returns (labels: seq<string>)
    requires IsDnsName(s)
    ensures Spells(labels, s)
    decreases |s|
  {
    hide IsLabel, LabelText;
    var k := IndexOf(s, '.');
    LabelMeaning(s[..k]);
    if k == |s| {
      labels := [s];
      assert s[..k] == s;
    } else {
      var rest := SplitDots(s[k + 1..]);
      labels := [s[..k]] + rest;
      assert labels[1..] == rest;
      assert s == s[..k] + ("." + s[k + 1..]);
    }
  }

  lemma {:induction false} DotsAreNames(labels: seq<string>, s: string)
    requires Spells(labels, s)
    ensures IsDnsName(s)
    decreases |labels|
  {
    hide IsLabel, LabelText, IndexOf, IsDnsName;
    var l, rest := labels[0], labels[1..];
    assert l in labels;
    LabelMeaning(l);
    LabelHasNoDot(l);
    if |labels| == 1 {
      SingleLabel(s);
    } else {
      assert forall x | x in rest :: x in labels;
      DotsAreNames(rest, JoinDots(rest));
      LabelBefore(l, JoinDots(rest));
      assert s == l + "." + JoinDots(rest);
    }
  }

  lemma SingleLabel(s: string)
    requires IsLabel(s) && '.' !in s
    ensures IsDnsName(s)
  {
    hide IsLabel, IndexOf;
    IndexOfAbsent(s, '.');
    assert s[..|s|] == s;
  }

  lemma LabelBefore(l: string, name: string)
    requires IsLabel(l) && '.' !in l && IsDnsName(name)
    ensures IsDnsName(l + "." + name)
  {
    hide IsLabel, IndexOf;
    FirstFound(l, '.', name);
  }

  /** A DNS name is a list of labels with dots between them. */
  lemma DnsNameMeaning(s: string)
    ensures IsDnsName(s) <==> exists labels :: Spells(labels, s)
  {
    hide IsDnsName, Spells;
    if IsDnsName(s) {
      var labels := SplitDots(s);
    }
    if labels :| Spells(labels, s) {
      DotsAreNames(labels, s);
    }
  }

  // An address or a DNS name, without '*' and without a dot at either end.
  ghost predicate HostText(ips: HostIps, host: string) {
    && host != "" && '*' !in host && host[0] != '.' && host[|host| - 1] != '.'
    && (ips.isIp(host) || exists labels :: Spells(labels, host))
  }

  /** A line is accepted exactly if it has no '/' and no ' ' and names an address or a DNS name. */
  lemma AcceptMeaning(ips: HostIps, line: string)
    requires Stripped(line)
    ensures var host := NormalizeRequestHost(line);
      Accept(ips)(line) == if '/' !in line && ' ' !in line && HostText(ips, host) then Some(host) else None
  {
    hide Strip, NormalizeRequestHost, IsDnsName, Spells;
    LowerKeepsOthers(line);
    LowerFirst(line);
    DnsNameMeaning(NormalizeRequestHost(line));
  }

  lemma LowerKeepsOthers(s: string)
    ensures '/' in Lower(s) <==> '/' in s
    ensures ' ' in Lower(s) <==> ' ' in s
  {
    assert forall i | 0 <= i < |s| :: (Lower(s)[i] == '/' <==> s[i] == '/') && (Lower(s)[i] == ' ' <==> s[i] == ' ');
    assert forall i | 0 <= i < |s| :: Lower(s)[i] in Lower(s) && s[i] in s;
  }

  lemma LowerFirst(line: string)
    requires Stripped(line)
    ensures NormalizeRequestHost(Lower(line)) == NormalizeRequestHost(line)
  {
    hide Strip, Lower, Count, IndexOf, Stripped;
    LowerKeepsStripped(line);
    StripFixes(line);
    StripFixes(Lower(line));
    LowerIdempotent(line);
  }

  /**
    A header names what stands between its brackets, else what stands before its only colon, else
    all of it; in small letters, without the white space around it.
   */
  lemma HeaderMeaning(header: string, host: string, rest: string)
    ensures Strip(header) == "[" + host + "]" + rest && ']' !in host ==> NormalizeRequestHost(header) == Lower(host)
    ensures Strip(header) == host + ":" + rest && ':' !in host + rest && (host == "" || host[0] != '[')
      ==> NormalizeRequestHost(header) == Lower(host)
    ensures Strip(header) == host && (host == "" || (if host[0] == '[' then ']' !in host else Count(host, ':') != 1))
      ==> NormalizeRequestHost(header) == Lower(host)
  {
    hide Strip, Lower, NormalizeRequestHost, Count;
    var s := Strip(header);
    if s == "[" + host + "]" + rest && ']' !in host {
      InBrackets(header, host, rest);
    }
    if s == host + ":" + rest && ':' !in host + rest && (host == "" || host[0] != '[') {
      BeforeColon(header, host, rest);
    }
    if s == host && (host == "" || if host[0] == '[' then ']' !in host else Count(host, ':') != 1) {
      WholeHeader(header);
    }
  }

  lemma {:induction false} LowerCount(s: string)
    ensures Count(Lower(s), ':') == Count(s, ':')
  {
    if s != "" {
      LowerCount(s[1..]);
    }
  }

  lemma WholeHeader(header: string)
    requires var s := Strip(header); s == "" || (if s[0] == '[' then ']' !in s else Count(s, ':') != 1)
    ensures NormalizeRequestHost(header) == Lower(Strip(header))
  {
    hide Strip, Lower, Count;
    var s := Strip(header);
    if s != "" {
      LowerAtStart(s);
      LowerCount(s);
      if s[0] == '[' {
        LowerKeepsAbsent(s);
        IndexOfAbsent(Lower(s), ']');
      }
    }
  }

  lemma InBrackets(header: string, host: string, rest: string)
    requires Strip(header) == "[" + host + "]" + rest && ']' !in host
    ensures NormalizeRequestHost(header) == Lower(host)
  {
    hide Strip, Lower, Count, IndexOf;
    LowerKeepsAbsent(host);
    LowerParts("[" + host, ']', rest);
    LowerAppend("[", host);
    assert Lower("[") == "[";
    FirstFound("[" + Lower(host), ']', Lower(rest));
    assert ("[" + Lower(host))[1..] == Lower(host);
    assert Lower(Strip(header))[..|host| + 1][1..] == Lower(Strip(header))[1..|host| + 1];
  }

  lemma BeforeColon(header: string, host: string, rest: string)
    requires Strip(header) == host + ":" + rest && ':' !in host + rest && (host == "" || host[0] != '[')
    ensures NormalizeRequestHost(header) == Lower(host)
  {
    hide Strip, Lower, Count, IndexOf;
    var s := host + ":" + rest;
    LowerCount(s);
    CountAppend(host + ":", rest, ':');
    CountAppend(host, ":", ':');
    OneColon();
    LowerAtStart(s);
    LowerParts(host, ':', rest);
    LowerKeepsColon(host);
    FirstFound(Lower(host), ':', Lower(rest));
  }

  lemma OneColon()
    ensures Count(":", ':') == 1
  {
  }

  lemma LowerParts(a: string, c: char, b: string)
    requires LowerChar(c) == c
    ensures Lower(a + [c] + b) == Lower(a) + [c] + Lower(b)
  {
    LowerAppend(a + [c], b);
    LowerAppend(a, [c]);
  }

  lemma LowerKeepsColon(s: string)
    requires ':' !in s
    ensures ':' !in Lower(s)
  {
    assert forall i | 0 <= i < |s| :: s[i] in s;
  }

  lemma FirstFound(a: string, c: char, b: string)
    requires c !in a
    ensures var s := a + [c] + b; IndexOf(s, c) == |a| && s[..|a|] == a && s[|a| + 1..] == b
  {
    var s := a + [c] + b;
    assert forall i | 0 <= i < |a| :: s[i] == a[i] && a[i] in a;
    IndexOfAt(s, c, |a|);
  }

  // What both kinds of acceptable host have in common.
  lemma AcceptableHost(ips: HostIps, host: string)
    requires Lawful(ips) && (ips.isIp(host) || IsDnsName(host))
    ensures host != "" && !IsSpace(host[0]) && host[0] != '[' && Count(host, ':') != 1
    ensures Count(host, ':') == 0 ==> Stripped(host)
  {
    if IsDnsName(host) {
      DnsCharacters(host);
      assert Count(host, ':') == 0;
    }
  }

  /** The shape of an accepted host; it is a normal form unless its zone id ends in white space. */
  lemma AcceptedShape(ips: HostIps, line: string)
    requires Lawful(ips) && line != "" && Stripped(line) && Accept(ips)(line).Some?
    ensures var host := Accept(ips)(line).value;
      && host != "" && !IsSpace(host[0]) && host[0] != '[' && Lower(host) == host && Count(host, ':') != 1
      && (Stripped(host) <==> !SpaceInZone(Lower(line)))
      && (NormalizeRequestHost(host) == host <==> Stripped(host))
  {
    hide Strip, Lower, Count, IsDnsName, IndexOf, NormalizeRequestHost;
    var value := Lower(line);
    LowerKeepsStripped(line);
    LowerIdempotent(line);
    PartOf(value);
    PartIsLower(value);
    var host := NormalizeRequestHost(value);
    AcceptableHost(ips, host);
    NormalFormsAreFixed(host);
  }

  lemma LowerOneLine(s: string)
    requires OneLine(s)
    ensures OneLine(Lower(s))
  {
    forall c | c in Lower(s) ensures !IsLineBreak(c) {
      var i :| 0 <= i < |s| && Lower(s)[i] == c;
      assert s[i] in s;
    }
  }

  lemma AcceptedIsStable(ips: HostIps, line: string)
    requires Lawful(ips) && line != "" && Stripped(line) && Accept(ips)(line).Some? && OneLine(line)
    ensures OneLine(Accept(ips)(line).value)
    ensures Stripped(Accept(ips)(line).value) ==> Stable(Accept(ips), Accept(ips)(line).value)
  {
    hide Strip, Lower, Count, IsDnsName, IndexOf, NormalizeRequestHost;
    AcceptedShape(ips, line);
    LowerOneLine(line);
    LowerKeepsStripped(line);
    LowerIdempotent(line);
    PartOf(Lower(line));
  }

  ghost predicate NoSpaceInZones(ips: HostIps, text: string) {
    forall k | 0 <= k < Considered(text, MAX_HOST_ENTRIES) ::
      Accept(ips)(EntriesOf(text)[k].1).Some? ==> !SpaceInZone(Lower(EntriesOf(text)[k].1))
  }

  /**
    Printing the list as it is loaded from the settings and parsing it again gives the saved list
    without errors, exactly when no accepted line has a zone id that ends in white space. There
    are no duplicates.
   */
  lemma HostFixedPoint(ips: HostIps, text: string)
    requires Lawful(ips)
    ensures var list := Normalized(Accept(ips), MAX_HOST_ENTRIES, text);
      var printed := JoinLines(Loaded(list, |list|));
      && Distinct(list) && |list| <= MAX_HOST_ENTRIES
      && (NoSpaceInZones(ips, text) <==>
            Normalized(Accept(ips), MAX_HOST_ENTRIES, printed) == list
            && Errors(Accept(ips), MAX_HOST_ENTRIES, printed) == [])
  {
    hide Strip, Lower, Stripped, Accept, Lawful, Normalized, Errors, Considered, Stable, OneLine, SpaceInZone,
      Loaded, EntriesOf;
    var list := Normalized(Accept(ips), MAX_HOST_ENTRIES, text);
    NormalizedMeaning(Accept(ips), MAX_HOST_ENTRIES, text);
    if NoSpaceInZones(ips, text) {
      forall i | 0 <= i < |list| ensures Stable(Accept(ips), list[i]) && OneLine(list[i]) && LoadsAsItself(list[i]) {
        ListedShape(ips, text, list[i]);
        StableLoads(Accept(ips), list[i]);
      }
      LoadedStable(list, |list|);
      assert Loaded(list, |list|) == list;
      PrintThenParse(Accept(ips), MAX_HOST_ENTRIES, list);
    } else {
      var k :| 0 <= k < Considered(text, MAX_HOST_ENTRIES)
        && Accept(ips)(EntriesOf(text)[k].1).Some? && SpaceInZone(Lower(EntriesOf(text)[k].1));
      EntryShape(text, k);
      AcceptedShape(ips, EntriesOf(text)[k].1);
      var host := Accept(ips)(EntriesOf(text)[k].1).value;
      LoadedLines(ips, text);
      UnstrippedIsLost(ips, Loaded(list, |list|), host);
    }
  }

  ghost predicate LoadsAsItself(host: string) {
    host != "" && Strip(host) == host && Lower(host) == host
  }

  lemma StableLoads(accept: string -> Option<string>, host: string)
    requires Stable(accept, host) && Lower(host) == host
    ensures LoadsAsItself(host)
  {
    StripFixes(host);
  }

  lemma {:induction false} LoadedStable(list: seq<string>, n: nat)
    requires n <= |list| && forall i | 0 <= i < |list| :: LoadsAsItself(list[i])
    ensures Loaded(list, n) == list[..n]
  {
    hide Strip, Lower;
    if n > 0 {
      LoadedStable(list, n - 1);
      assert LoadsAsItself(list[n - 1]);
    }
  }

  // A line that could be printed for an accepted host.
  ghost predicate HostLine(line: string) {
    line != "" && OneLine(line) && !IsSpace(line[0]) && line[0] != '['
  }

  lemma LoadedLines(ips: HostIps, text: string)
    requires Lawful(ips)
    ensures var list := Normalized(Accept(ips), MAX_HOST_ENTRIES, text);
      forall line | line in Loaded(list, |list|) :: HostLine(line)
  {
    hide Strip, Lower, Accept, Lawful, Normalized, OneLine, Loaded, Stripped;
    var list := Normalized(Accept(ips), MAX_HOST_ENTRIES, text);
    LoadedMeaning(list, |list|);
    forall line | line in Loaded(list, |list|) ensures HostLine(line) {
      var i :| 0 <= i < |list| && line == Lower(Strip(list[i]));
      ListedShape(ips, text, list[i]);
      LoadedLine(list[i]);
    }
  }

  lemma LoadedLine(host: string)
    requires host != "" && OneLine(host) && !IsSpace(host[0]) && host[0] != '['
    ensures HostLine(Lower(Strip(host)))
  {
    hide Strip, IsSpace, IsLineBreak;
    StripKeepsFirst(host);
    StripStrips(host);
    LowerOneLine(Strip(host));
    LowerKeepsStripped(Strip(host));
    LowerAtStart(Strip(host));
    StripStrips(Strip(host));
  }

  lemma ListedShape(ips: HostIps, text: string, host: string)
    requires Lawful(ips) && host in Normalized(Accept(ips), MAX_HOST_ENTRIES, text)
    ensures host != "" && !IsSpace(host[0]) && host[0] != '[' && OneLine(host) && Lower(host) == host
    ensures Stripped(host) || Count(host, ':') > 1
    ensures NoSpaceInZones(ips, text) ==> Stable(Accept(ips), host)
  {
    hide Strip, Lower, Stripped, Accept, Lawful, Normalized, Considered, Stable, OneLine, SpaceInZone, Count;
    NormalizedMeaning(Accept(ips), MAX_HOST_ENTRIES, text);
    var k :| 0 <= k < Considered(text, MAX_HOST_ENTRIES) && Accept(ips)(EntriesOf(text)[k].1) == Some(host);
    EntryShape(text, k);
    AcceptedShape(ips, EntriesOf(text)[k].1);
    AcceptedIsStable(ips, EntriesOf(text)[k].1);
    ColonFreeIsStripped(ips, EntriesOf(text)[k].1);
  }

  lemma ColonFreeIsStripped(ips: HostIps, line: string)
    requires Lawful(ips) && Accept(ips)(line).Some?
    ensures Stripped(Accept(ips)(line).value) || Count(Accept(ips)(line).value, ':') > 1
  {
    hide Strip, Lower, Count, IsDnsName, IndexOf, NormalizeRequestHost;
    AcceptableHost(ips, Accept(ips)(line).value);
  }

  // No line that starts like a host is accepted as one with white space at its end.
  lemma UnstrippedIsLost(ips: HostIps, lines: seq<string>, host: string)
    requires Lawful(ips) && !Stripped(host) && forall l | l in lines :: HostLine(l)
    ensures host !in Normalized(Accept(ips), MAX_HOST_ENTRIES, JoinLines(lines))
  {
    hide Strip, Lower, Stripped, Accept, Lawful, Normalized, Considered, OneLine, Count, SpaceInZone;
    var again := JoinLines(lines);
    if host in Normalized(Accept(ips), MAX_HOST_ENTRIES, again) {
      forall l | l in lines ensures OneLine(l) && l != "" {
        assert HostLine(l);
      }
      JoinThenSplit(lines);
      NormalizedMeaning(Accept(ips), MAX_HOST_ENTRIES, again);
      var k :| 0 <= k < Considered(again, MAX_HOST_ENTRIES) && Accept(ips)(EntriesOf(again)[k].1) == Some(host);
      EntryAt(lines, |lines|, k);
      var l :| l in lines && EntriesOf(again)[k].1 == Strip(l) != "";
      assert HostLine(l);
      EntryShape(again, k);
      AcceptedShape(ips, Strip(l));
      StripKeepsFirst(l);
      LowerAtStart(Strip(l));
      NotBracketed(Lower(Strip(l)));
    }
  }

  // The characters an accepted host may have, brackets aside.
  ghost predicate HostCharacters(host: string) {
    forall i | 0 <= i < |host| ::
      && LowerChar(host[i]) == host[i] && !IsLineBreak(host[i]) && host[i] != ']'
      && host[i] != '/' && host[i] != ' ' && host[i] != '*' && host[i] != '.'
  }

  lemma BracketedIsAccepted(ips: HostIps, host: string, line: string)
    requires ips.isIp(host) && host != "" && HostCharacters(host) && line == "[" + host + "]"
    ensures Accept(ips)(line) == Some(host) && OneLine(line) && Strip(line) == line
  {
    hide Strip, NormalizeRequestHost;
    assert forall i | 1 <= i <= |host| :: line[i] == host[i - 1];
    assert line[0] == '[' && line[|host| + 1] == ']';
    StripFixes(line);
    LowerCharacters(line);
    assert line[1..|host| + 1] == host;
    BracketedHost(host, line);
    assert !Suspect(host);
    forall c | c in line ensures c != '/' && c != ' ' && !IsLineBreak(c) {
      var i :| 0 <= i < |line| && line[i] == c;
    }
    forall c | c in host ensures c != '*' {
      var i :| 0 <= i < |host| && host[i] == c;
    }
  }

  lemma SingleEntry(line: string)
    requires line != "" && OneLine(line) && Strip(line) == line
    ensures EntriesOf(line) == [(1, line)] && Considered(line, MAX_HOST_ENTRIES) == 1
  {
    hide Strip, SplitLines;
    SplitOneLine(line);
    assert Entries([line], 0) == [];
  }

  lemma BracketedIsLost(ips: HostIps, host: string, line: string)
    requires Lawful(ips) && ips.isIp(host) && host != "" && HostCharacters(host) && line == "[" + host + "]"
    requires !Stripped(host)
    ensures var list := Normalized(Accept(ips), MAX_HOST_ENTRIES, line);
      list == [host] && Normalized(Accept(ips), MAX_HOST_ENTRIES, JoinLines(Loaded(list, 1))) != list
  {
    hide Strip, Lower, Accept, Lawful, EntriesOf, Stripped, Loaded;
    BracketedIsAccepted(ips, host, line);
    SingleEntry(line);
    assert EntriesOf(line)[0].1 == line;
    assert Accepted(Accept(ips), EntriesOf(line), 0) == [];
    assert Normalized(Accept(ips), MAX_HOST_ENTRIES, line) == [host];
    LoadedLines(ips, line);
    UnstrippedIsLost(ips, Loaded([host], |[host]|), host);
  }

  /** Such a line: a bracketed address whose zone id ends in a tab. */
  lemma ZoneSpaceIsLost(ips: HostIps)
    requires Lawful(ips) && ips.isIp("fe80::1%e\t")
    ensures var list := Normalized(Accept(ips), MAX_HOST_ENTRIES, "[fe80::1%e\t]");
      list == ["fe80::1%e\t"] && Normalized(Accept(ips), MAX_HOST_ENTRIES, JoinLines(Loaded(list, 1))) != list
  {
    hide Strip, Lower, Accept, Normalized, Considered, EntriesOf, Lawful, Loaded;
    assert "fe80::1%e\t"[9] == '\t';
    assert "[fe80::1%e\t]" == "[" + "fe80::1%e\t" + "]";
    BracketedIsLost(ips, "fe80::1%e\t", "[fe80::1%e\t]");
  }

  lemma NotBracketed(value: string)
    requires value == "" || value[0] != '['
    ensures !SpaceInZone(value)
  {
  }

  // ---------------------------------------------------------------- the check

  const BUILTIN_ALLOWED_HOSTS: set<string> := {"localhost", "127.0.0.1", "::1"}

  // The caller has normalised the header once; this normalises it again.
  predicate HostAllowed(ips: HostIps, host: string, enabled: bool, allowed: seq<string>) {
    !enabled || (host != "" && Permitted(ips, NormalizeRequestHost(host), allowed))
  }

  predicate Permitted(ips: HostIps, host: string, allowed: seq<string>) {
    host != ""
    && (|| host in BUILTIN_ALLOWED_HOSTS || ips.isPrivate(host)
        || exists i :: 0 <= i < |allowed| && Lower(allowed[i]) == host)
  }

  // get_allowed_hosts_list: stripped, lower case, without blanks
  function Loaded(hosts: seq<string>, n: nat): seq<string>
    requires n <= |hosts|
  {
    if n == 0 then []
    else Loaded(hosts, n - 1) + if Strip(hosts[n - 1]) == "" then [] else [Lower(Strip(hosts[n - 1]))]
  }

  lemma {:induction false} LoadedMeaning(hosts: seq<string>, n: nat)
    requires n <= |hosts|
    ensures forall v :: v in Loaded(hosts, n) <==> exists i ::
      0 <= i < n && Strip(hosts[i]) != "" && v == Lower(Strip(hosts[i]))
  {
    hide Strip, Lower;
    if n > 0 {
      LoadedMeaning(hosts, n - 1);
    }
  }

  /** After two normalisations white space can only be left over in front of a port. */
  lemma TwiceNormalized(header: string)
    ensures var n := NormalizeRequestHost(NormalizeRequestHost(header)); Stripped(n) || Count(n, ':') == 0
  {
    hide Lower, Strip, Count, Stripped;
    var once := NormalizeRequestHost(header);
    var value := Lower(Strip(once));
    StripStrips(once);
    LowerKeepsStripped(Strip(once));
    if value != "" && value[0] == '[' {
      BracketOpensOnly(header);
      IndexOfAbsent(value, ']');
    } else if Count(value, ':') == 1 {
      NoColonBefore(value);
    } else {
      assert value == "" ==> Stripped("") by { StripFixes(""); }
    }
  }

  lemma LowerKeepsAbsent(s: string)
    requires ']' !in s
    ensures ']' !in Lower(s)
  {
    assert forall i | 0 <= i < |s| :: s[i] in s;
  }

  // What is left of a bracketed header holds no closing bracket.
  lemma BracketOpensOnly(header: string)
    requires var value := Lower(Strip(NormalizeRequestHost(header))); value != "" && value[0] == '['
    ensures ']' !in Lower(Strip(NormalizeRequestHost(header)))
  {
    hide Lower, Strip, Count, Stripped, IndexOf;
    var once := NormalizeRequestHost(header);
    var first := Lower(Strip(header));
    StripStrips(header);
    LowerKeepsStripped(Strip(header));
    StripStrips(once);
    WholeStrip(once);
    LowerAtStart(Strip(once));
    if first[0] != '[' {
      StripKeepsStart(first, once);
    } else {
      IndexOfAbsent(first, ']');
      NothingBefore(first, ']');
      LowerKeepsAbsent(Strip(once));
    }
  }

  lemma NothingBefore(s: string, c: char)
    ensures forall i | 0 <= i < IndexOf(s, c) :: s[i] != c
  {
  }

  // A prefix of a stripped text keeps its first character when stripped.
  lemma StripKeepsStart(first: string, once: string)
    requires Stripped(first) && once <= first && once != ""
    ensures Strip(once) != "" && Strip(once)[0] == first[0]
  {
    StripKeepsFirst(once);
  }

  lemma {:induction false} CountAppend(a: string, b: string, c: char)
    ensures Count(a + b, c) == Count(a, c) + Count(b, c)
  {
    if a == "" {
      assert a + b == b;
    } else {
      assert (a + b)[1..] == a[1..] + b;
      CountAppend(a[1..], b, c);
    }
  }

  predicate Digits(s: string) {
    forall i | 0 <= i < |s| :: '0' <= s[i] <= '9'
  }

  lemma LowerCharacters(s: string)
    requires forall i | 0 <= i < |s| :: LowerChar(s[i]) == s[i]
    ensures Lower(s) == s
  {
  }

  // A header that needs no stripping and no lower-casing.
  ghost predicate Plain(s: string) {
    s != "" && !IsSpace(s[0]) && !IsSpace(s[|s| - 1]) && forall i | 0 <= i < |s| :: LowerChar(s[i]) == s[i]
  }

  lemma PlainIsItself(s: string)
    requires Plain(s)
    ensures Lower(Strip(s)) == s
  {
    StripFixes(s);
    LowerCharacters(s);
  }

  lemma BracketedHost(host: string, s: string)
    requires Plain(s) && |s| > |host| + 1 && s[0] == '[' && s[1..|host| + 1] == host && s[|host| + 1] == ']'
      && ']' !in host
    ensures NormalizeRequestHost(s) == host
  {
    PlainIsItself(s);
    forall i | 1 <= i < |host| + 1 ensures s[i] != ']' {
      assert s[i] == host[i - 1] && host[i - 1] in host;
    }
    IndexOfAt(s, ']', |host| + 1);
  }

  lemma HostWithPort(host: string, port: string, s: string)
    requires Plain(s) && s == host + ":" + port && host != "" && host[0] != '[' && Count(host, ':') == 0 && ':' !in port
    ensures NormalizeRequestHost(s) == host
  {
    hide Lower, Strip;
    PlainIsItself(s);
    CountAppend(host + ":", port, ':');
    CountAppend(host, ":", ':');
    assert forall i | 0 <= i < |host| :: host[i] in host;
    IndexOfAt(s, ':', |host|);
    assert s[..|host|] == host;
  }

  lemma NormalCharacters(host: string)
    requires Lower(host) == host
    ensures forall i | 0 <= i < |host| :: LowerChar(host[i]) == host[i]
  {
  }

  lemma PortedIsPlain(host: string, port: string, s: string)
    requires s == host + ":" + port && host != "" && !IsSpace(host[0]) && Digits(port)
    requires forall i | 0 <= i < |host| :: LowerChar(host[i]) == host[i]
    ensures Plain(s) && ':' !in port
  {
    assert forall i | |host| < i < |s| :: s[i] == port[i - |host| - 1];
  }

  lemma BracketedIsPlain(host: string, port: string, s: string)
    requires s == "[" + host + "]:" + port && Digits(port)
    requires forall i | 0 <= i < |host| :: LowerChar(host[i]) == host[i]
    ensures Plain(s) && |s| > |host| + 1 && s[0] == '[' && s[1..|host| + 1] == host && s[|host| + 1] == ']'
  {
    var h := |host|;
    assert s[h + 1] == ']' && s[h + 2] == ':';
    assert forall i | 1 <= i <= h :: s[i] == host[i - 1];
    assert forall i | h + 2 < i < |s| :: s[i] == port[i - h - 3];
  }

  /** A header that names a normal host finds it, with and without a port. */
  lemma PortIsIgnored(host: string, port: string)
    requires IsNormal(host) && host != "" && host[0] != '[' && Digits(port)
    ensures Count(host, ':') == 0 ==> NormalizeRequestHost(host + ":" + port) == host
    ensures ']' !in host ==> NormalizeRequestHost("[" + host + "]:" + port) == host
  {
    hide Lower, Strip, Count, IndexOf, NormalizeRequestHost, Plain;
    NormalCharacters(host);
    if Count(host, ':') == 0 {
      PortedIsPlain(host, port, host + ":" + port);
      HostWithPort(host, port, host + ":" + port);
    }
    if ']' !in host {
      BracketedIsPlain(host, port, "[" + host + "]:" + port);
      BracketedHost(host, "[" + host + "]:" + port);
    }
  }

  /** The middleware serves every listed host, however the header spells its port. */
  lemma ListedHostIsServed(ips: HostIps, text: string, host: string, port: string)
    requires Lawful(ips) && host in Normalized(Accept(ips), MAX_HOST_ENTRIES, text) && Stripped(host) && Digits(port)
    ensures var list := Normalized(Accept(ips), MAX_HOST_ENTRIES, text);
      var allowed := Loaded(list, |list|);
      && HostAllowed(ips, NormalizeRequestHost(host), true, allowed)
      && (Count(host, ':') == 0 ==> HostAllowed(ips, NormalizeRequestHost(host + ":" + port), true, allowed))
      && (']' !in host ==> HostAllowed(ips, NormalizeRequestHost("[" + host + "]:" + port), true, allowed))
  {
    hide Lower, Strip, Count, NormalizeRequestHost, Accept, Lawful, Normalized, Loaded;
    var list := Normalized(Accept(ips), MAX_HOST_ENTRIES, text);
    ListedShape(ips, text, host);
    ListedColons(ips, text, host);
    NormalFormsAreFixed(host);
    PortIsIgnored(host, port);
    InLoaded(list, host);
  }

  lemma ListedColons(ips: HostIps, text: string, host: string)
    requires Lawful(ips) && host in Normalized(Accept(ips), MAX_HOST_ENTRIES, text)
    ensures Count(host, ':') != 1
  {
    hide Strip, Lower, Stripped, Accept, Lawful, Normalized, Considered, Count;
    NormalizedMeaning(Accept(ips), MAX_HOST_ENTRIES, text);
    var k :| 0 <= k < Considered(text, MAX_HOST_ENTRIES) && Accept(ips)(EntriesOf(text)[k].1) == Some(host);
    EntryShape(text, k);
    AcceptedShape(ips, EntriesOf(text)[k].1);
  }

  lemma InLoaded(list: seq<string>, host: string)
    requires host in list && Stripped(host) && host != "" && Lower(host) == host
    ensures exists i :: 0 <= i < |Loaded(list, |list|)| && Lower(Loaded(list, |list|)[i]) == host
  {
    hide Lower, Strip, Loaded, Stripped;
    StripFixes(host);
    LoadedMeaning(list, |list|);
    var k :| 0 <= k < |list| && list[k] == host;
    assert host in Loaded(list, |list|);
  }

  /** Whoever passes the check against the list being saved passes it against the list as loaded again. */
  lemma LoadingKeepsAccess(ips: HostIps, text: string, header: string)
    requires Lawful(ips)
    requires HostAllowed(ips, NormalizeRequestHost(header), true, Normalized(Accept(ips), MAX_HOST_ENTRIES, text))
    ensures var list := Normalized(Accept(ips), MAX_HOST_ENTRIES, text);
      HostAllowed(ips, NormalizeRequestHost(header), true, Loaded(list, |list|))
  {
    hide Lower, Strip, Count, NormalizeRequestHost, Accept, Lawful, Normalized, Loaded, Stripped;
    var list := Normalized(Accept(ips), MAX_HOST_ENTRIES, text);
    var host := NormalizeRequestHost(NormalizeRequestHost(header));
    if i :| 0 <= i < |list| && Lower(list[i]) == host {
      ListedShape(ips, text, list[i]);
      TwiceNormalized(header);
      InLoaded(list, host);
    }
  }
}
