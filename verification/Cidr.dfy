/** CIDR allowlists (app/security/service.py); prefixes as in section 3.1 of RFC 4632. */
module Cidr {
  import opened Base
  import opened Text
  import opened Allowlist

  const MAX_CIDR_ENTRIES: nat := 100

  datatype Family = V4 | V6

  function Width(family: Family): nat {
    if family.V4? then 32 else 128
  }

  function Pow2(k: nat): (r: nat)
    ensures r > 0
  {
    if k == 0 then 1 else 2 * Pow2(k - 1)
  }

  datatype AnyAddress = Address(family: Family, n: nat)

  type Address = a: AnyAddress | a.n < Pow2(Width(a.family)) witness Address(V4, 0)

  datatype AnyPrefix = Prefix(family: Family, n: nat, plen: nat)

  // An address with a prefix length; host bits may be set.
  type Prefix = p: AnyPrefix | p.plen <= Width(p.family) && p.n < Pow2(Width(p.family)) witness Prefix(V4, 0, 0)

  // ---------------------------------------------------------------- masks

  function And(a: nat, b: nat): (r: nat)
    ensures r <= a
  {
    if a == 0 || b == 0 then 0 else 2 * And(a / 2, b / 2) + (a % 2) * (b % 2)
  }

  // plen ones, then zeros
  function Netmask(family: Family, plen: nat): int
    requires plen <= Width(family)
  {
    Pow2(Width(family)) - Pow2(Width(family) - plen)
  }

  lemma {:induction false} Pow2Monotonic(a: nat, b: nat)
    requires a <= b
    ensures Pow2(a) <= Pow2(b)
  {
    if a < b {
      Pow2Monotonic(a, b - 1);
    }
  }

  // ip_network(..., strict=False)
  function ClearHostBits(l: Prefix): Prefix {
    Pow2Monotonic(Width(l.family) - l.plen, Width(l.family));
    l.(n := And(l.n, Netmask(l.family, l.plen)))
  }

  // addr in network
  predicate Covers(net: Prefix, a: Address) {
    Pow2Monotonic(Width(net.family) - net.plen, Width(net.family));
    a.family == net.family && And(a.n, Netmask(net.family, net.plen)) == net.n
  }

  // Bit i of n, the lowest being bit 0.
  function Bit(n: nat, i: nat): nat {
    if i == 0 then n % 2 else Bit(n / 2, i - 1)
  }

  /** The meaning of a prefix: the two numbers agree from bit `host` up. */
  ghost predicate SamePrefix(a: nat, b: nat, host: nat, width: nat) {
    forall i | host <= i < width :: Bit(a, i) == Bit(b, i)
  }

  // n with its lowest `host` bits cleared
  function Floor(n: nat, host: nat): nat {
    if host == 0 then n else 2 * Floor(n / 2, host - 1)
  }

  // The netmask clears exactly the host bits.
  lemma {:induction false} MaskFloors(n: nat, width: nat, host: nat)
    requires host <= width && n < Pow2(width)
    ensures Pow2(host) <= Pow2(width)
    ensures And(n, Pow2(width) - Pow2(host)) == Floor(n, host)
  {
    Pow2Monotonic(host, width);
    var mask := Pow2(width) - Pow2(host);
    if width > 0 {
      if host > 0 {
        MaskFloors(n / 2, width - 1, host - 1);
        assert mask / 2 == Pow2(width - 1) - Pow2(host - 1) && mask % 2 == 0;
        AndOfEven(n, mask);
      } else {
        MaskFloors(n / 2, width - 1, 0);
        assert mask / 2 == Pow2(width - 1) - 1 && mask % 2 == 1;
        AndOfOdd(n, mask);
      }
    } else {
      assert mask == 0 && n == 0;
    }
  }

  lemma AndOfEven(n: nat, mask: nat)
    requires mask % 2 == 0
    ensures And(n, mask) == 2 * And(n / 2, mask / 2)
  {
    assert (n % 2) * (mask % 2) == 0;
  }

  lemma AndOfOdd(n: nat, mask: nat)
    requires mask % 2 == 1
    ensures And(n, mask) == 2 * And(n / 2, mask / 2) + n % 2
  {
    assert (n % 2) * (mask % 2) == n % 2;
  }

  lemma {:induction false} FloorIsRange(n: nat, a: nat, host: nat)
    ensures Floor(a, host) == Floor(n, host) <==> Floor(n, host) <= a < Floor(n, host) + Pow2(host)
    ensures Floor(Floor(n, host), host) == Floor(n, host)
  {
    if host > 0 {
      FloorIsRange(n / 2, a / 2, host - 1);
    }
  }

  lemma {:induction false} SamePrefixIsSameFloor(a: nat, b: nat, host: nat, width: nat)
    requires host <= width && a < Pow2(width) && b < Pow2(width)
    ensures SamePrefix(a, b, host, width) <==> Floor(a, host) == Floor(b, host)
  {
    if width > 0 {
      var h := if host > 0 then host - 1 else 0;
      SamePrefixIsSameFloor(a / 2, b / 2, h, width - 1);
      PrefixOfHalves(a, b, host, width);
    }
  }

  lemma PrefixOfHalves(a: nat, b: nat, host: nat, width: nat)
    requires host <= width && width > 0
    ensures SamePrefix(a, b, host, width) <==>
      SamePrefix(a / 2, b / 2, if host > 0 then host - 1 else 0, width - 1) && (host > 0 || a % 2 == b % 2)
  {
    var h := if host > 0 then host - 1 else 0;
    if SamePrefix(a, b, host, width) {
      forall i | h <= i < width - 1 ensures Bit(a / 2, i) == Bit(b / 2, i) {
        assert Bit(a, i + 1) == Bit(b, i + 1);
      }
      assert host == 0 ==> Bit(a, 0) == Bit(b, 0);
    }
    if SamePrefix(a / 2, b / 2, h, width - 1) && (host > 0 || a % 2 == b % 2) {
      forall i | host <= i < width ensures Bit(a, i) == Bit(b, i) {
        assert i > 0 ==> Bit(a / 2, i - 1) == Bit(b / 2, i - 1);
      }
    }
  }

  /** Clearing host bits keeps the address set; clearing them again changes nothing. */
  lemma ClearingKeepsAddresses(l: Prefix, a: Address)
    ensures var net := ClearHostBits(l);
      && ClearHostBits(net) == net
      && (Covers(net, a) <==> a.family == l.family && SamePrefix(a.n, l.n, Width(l.family) - l.plen, Width(l.family)))
      && (Covers(net, a) <==> a.family == l.family && net.n <= a.n < net.n + Pow2(Width(l.family) - l.plen))
  {
    hide Pow2, And, Floor;
    var w := Width(l.family);
    var host := w - l.plen;
    MaskFloors(l.n, w, host);
    FloorBelow(l.n, host);
    FloorIsRange(l.n, a.n, host);
    MaskFloors(Floor(l.n, host), w, host);
    if a.family == l.family {
      MaskFloors(a.n, w, host);
      SamePrefixIsSameFloor(a.n, l.n, host, w);
    }
  }

  lemma {:induction false} FloorBelow(n: nat, host: nat)
    ensures Floor(n, host) <= n
  {
    if host > 0 {
      FloorBelow(n / 2, host - 1);
    }
  }

  // ---------------------------------------------------------------- the allowlist

  // Reading and printing addresses and networks as text (Python's ipaddress module).
  datatype IpText = IpText(address: string -> Option<Address>, literal: string -> Option<Prefix>,
    show: Prefix -> string)

  /** Every network reads back from its own text, which is one plain line. */
  ghost predicate Lawful(ip: IpText) {
    forall net: Prefix | ClearHostBits(net) == net ::
      ip.literal(ip.show(net)) == Some(net) && ip.show(net) != "" && Stripped(ip.show(net)) && OneLine(ip.show(net))
  }

  // str(ip_network(value, strict=False))
  function Accept(ip: IpText): string -> Option<string> {
    (value: string) =>
      match ip.literal(value)
      case Some(l) => Some(ip.show(ClearHostBits(l)))
      case None => None
  }

  method ParseAndNormalizeCidrs(ip: IpText, text: string) returns (normalized: seq<string>, errors: seq<LineError>)
    ensures normalized == Normalized(Accept(ip), MAX_CIDR_ENTRIES, text)
    ensures errors == Errors(Accept(ip), MAX_CIDR_ENTRIES, text)
  {
    hide Progress, Normalized, Errors, Strip, Accept;
    normalized, errors := [], [];
    var lines := SplitLines(text);
    var nonBlank: nat := 0;
    var seen: set<string> := {};
    ProgressStart(Accept(ip), MAX_CIDR_ENTRIES, text);
    for i := 0 to |lines|
      invariant Progress(Accept(ip), MAX_CIDR_ENTRIES, text, i, nonBlank, normalized, errors)
      invariant seen == set v | v in normalized
    {
      var value := Strip(lines[i]);
      ProgressLine(Accept(ip), MAX_CIDR_ENTRIES, text, i, nonBlank, normalized, errors);
      if value == "" {
        continue;
      }
      if nonBlank + 1 > MAX_CIDR_ENTRIES {
        errors := errors + [TooMany];
        return;
      }
      nonBlank := nonBlank + 1;
      var canonical := Accept(ip)(value);
      if canonical.None? {
        errors := errors + [InvalidLine(i + 1, value)];
        continue;
      }
      if canonical.value in seen {
        continue;
      }
      seen := seen + {canonical.value};
      normalized := normalized + [canonical.value];
    }
    ProgressEnd(Accept(ip), MAX_CIDR_ENTRIES, text, nonBlank, normalized, errors);
  }

  // One entry of a list covers the client's address; what cannot be read covers nothing.
  predicate EntryCovers(ip: IpText, entry: string, a: Address) {
    var l := ip.literal(entry);
    l.Some? && Covers(ClearHostBits(l.value), a)
  }

  method ClientIpAllowed(ip: IpText, clientIp: string, cidrs: seq<string>) returns (allowed: bool)
    ensures allowed == ClientAllowed(ip, clientIp, cidrs)
  {
    var a := ip.address(clientIp);
    if a.None? {
      return false;
    }
    for i := 0 to |cidrs|
      invariant forall j | 0 <= j < i :: !EntryCovers(ip, cidrs[j], a.value)
    {
      var l := ip.literal(cidrs[i]);
      if l.Some? && Covers(ClearHostBits(l.value), a.value) {
        return true;
      }
    }
    return false;
  }

  predicate ClientAllowed(ip: IpText, clientIp: string, cidrs: seq<string>) {
    ip.address(clientIp).Some? && exists i :: 0 <= i < |cidrs| && EntryCovers(ip, cidrs[i], ip.address(clientIp).value)
  }

  /** The entry is a valid prefix with this address: the same family and the same leading bits. */
  ghost predicate ListedPrefix(ip: IpText, entry: string, a: Address) {
    var l := ip.literal(entry);
    && l.Some? && a.family == l.value.family
    && var width := if a.family.V4? then 32 else 128;
       SamePrefix(a.n, l.value.n, width - l.value.plen, width)
  }

  lemma CoversIsListed(ip: IpText, entry: string, a: Address)
    ensures EntryCovers(ip, entry, a) <==> ListedPrefix(ip, entry, a)
  {
    hide Pow2, ClearHostBits, Covers, SamePrefix;
    if ip.literal(entry).Some? {
      ClearingKeepsAddresses(ip.literal(entry).value, a);
    }
  }

  /**
    The check on the stored list means what the lines meant: the client is let in exactly when
    one of the first hundred entries is valid and has the client's address in its prefix.
   */
  lemma AllowedMeansCovered(ip: IpText, clientIp: string, text: string)
    requires Lawful(ip)
    ensures ClientAllowed(ip, clientIp, Normalized(Accept(ip), MAX_CIDR_ENTRIES, text))
       <==> ip.address(clientIp).Some? && exists k ::
              (0 <= k < Considered(text, MAX_CIDR_ENTRIES)
                && ListedPrefix(ip, EntriesOf(text)[k].1, ip.address(clientIp).value))
  {
    hide Normalized, Considered, EntriesOf, Pow2, ClearHostBits, Covers, SamePrefix;
    var list := Normalized(Accept(ip), MAX_CIDR_ENTRIES, text);
    NormalizedMeaning(Accept(ip), MAX_CIDR_ENTRIES, text);
    if ip.address(clientIp).Some? {
      var a := ip.address(clientIp).value;
      if i :| 0 <= i < |list| && EntryCovers(ip, list[i], a) {
        assert list[i] in list;
        var k :| 0 <= k < Considered(text, MAX_CIDR_ENTRIES) && Accept(ip)(EntriesOf(text)[k].1) == Some(list[i]);
        EntryMeaning(ip, EntriesOf(text)[k].1, a);
      }
      if k :| 0 <= k < Considered(text, MAX_CIDR_ENTRIES) && ListedPrefix(ip, EntriesOf(text)[k].1, a) {
        EntryMeaning(ip, EntriesOf(text)[k].1, a);
        assert Accept(ip)(EntriesOf(text)[k].1).value in list;
      }
    }
  }

  lemma EntryMeaning(ip: IpText, entry: string, a: Address)
    requires Lawful(ip) && ip.literal(entry).Some?
    ensures Accept(ip)(entry).Some?
    ensures EntryCovers(ip, Accept(ip)(entry).value, a) <==> ListedPrefix(ip, entry, a)
  {
    hide Pow2, ClearHostBits, Covers, SamePrefix;
    ClearingKeepsAddresses(ip.literal(entry).value, a);
  }

  /** Parsing, printing and parsing again gives the same networks; each is printed in one way only. */
  lemma CidrFixedPoint(ip: IpText, text: string)
    requires Lawful(ip)
    ensures var list := Normalized(Accept(ip), MAX_CIDR_ENTRIES, text);
      && Distinct(list) && |list| <= MAX_CIDR_ENTRIES
      && Normalized(Accept(ip), MAX_CIDR_ENTRIES, JoinLines(list)) == list
      && Errors(Accept(ip), MAX_CIDR_ENTRIES, JoinLines(list)) == []
  {
    hide Normalized, Errors, Pow2, ClearHostBits, Stripped;
    NormalizedMeaning(Accept(ip), MAX_CIDR_ENTRIES, text);
    forall v | Accept(ip)(v).Some? ensures Stable(Accept(ip), Accept(ip)(v).value) && OneLine(Accept(ip)(v).value) {
      var l := ip.literal(v).value;
      ClearingKeepsAddresses(l, Address(l.family, l.n));
    }
    ParsePrintParse(Accept(ip), MAX_CIDR_ENTRIES, text);
  }
}
