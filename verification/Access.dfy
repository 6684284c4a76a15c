/**
  Who is served, in terms of the stored settings row and the raw request (app/security/middleware.py,
  app/security/service.py).
 */
module Access {
  import opened Base
  import opened Text
  import Allowlist
  import Cidr
  import Hosts
  import opened Security
  import opened Limiter
  import opened Middleware

  ghost predicate Open(path: string) {
    path == "/healthz" || path == "/readyz" || "/static/" <= path
  }

  // The host named by the header is built in, private, or an entry of the stored list.
  ghost predicate HostOk(ips: Hosts.HostIps, row: Settings, bypass: bool, header: string) {
    row.hostEnabled && !bypass ==>
      var host := Hosts.NormalizeRequestHost(Hosts.NormalizeRequestHost(header));
      host != "" && (host in {"localhost", "127.0.0.1", "::1"} || ips.isPrivate(host) || HostStored(row.hosts, host))
  }

  ghost predicate HostStored(column: JsonColumn, host: string) {
    column.Items? && exists i :: (0 <= i < |column.items| && Strip(column.items[i]) != ""
                                  && Lower(Strip(column.items[i])) == host)
  }

  // The client's address has the leading bits of an entry of the stored list.
  ghost predicate AddressOk(ip: Cidr.IpText, row: Settings, bypass: bool, client: string) {
    row.cidrEnabled && !bypass ==>
      && ip.address(client).Some? && row.cidrs.Items?
      && exists i :: 0 <= i < |row.cidrs.items| && Cidr.ListedPrefix(ip, row.cidrs.items[i], ip.address(client).value)
  }

  ghost predicate LoginNeeded(row: Settings, path: string) {
    row.authEnabled || "/security" <= path
  }

  // The header holds the stored user name and a password that the stored hash verifies.
  ghost predicate LoggedIn(username: string, hash: Hash, credentials: Option<string>) {
    exists u, w :: credentials == Some(u + ":" + w) && ':' !in u && |u| <= 64 && |w| <= 256
                   && u == username && hash.Hashed? && hash.password == w
  }

  // ---------------------------------------------------------------- the single checks

  lemma OpenIsPublic(path: string)
    ensures Open(path) <==> IsPublicPath(path)
  {
  }

  lemma LoginNeededIsRequired(row: Settings, r: Request)
    ensures LoginNeeded(row, r.path) <==> RequiresAuth(RowToPolicy(row), r)
  {
    hide Hosts.Loaded;
  }

  lemma HostOkIsPassing(ips: Hosts.HostIps, row: Settings, bypass: bool, r: Request)
    ensures HostOk(ips, row, bypass, r.host) <==> HostPasses(ips, RowToPolicy(row), bypass, r)
  {
    hide Strip, Lower, Hosts.NormalizeRequestHost, Hosts.Loaded, HostStored, Hosts.Permitted;
    EmptyHostIsEmpty();
    PermittedMeans(ips, row, Hosts.NormalizeRequestHost(Hosts.NormalizeRequestHost(r.host)));
  }

  lemma PermittedMeans(ips: Hosts.HostIps, row: Settings, host: string)
    ensures Hosts.Permitted(ips, host, Hosts.Loaded(ListOf(row.hosts), |ListOf(row.hosts)|)) <==>
      host != "" && (host in {"localhost", "127.0.0.1", "::1"} || ips.isPrivate(host) || HostStored(row.hosts, host))
  {
    hide Strip, Lower, Hosts.Loaded, HostStored;
    LoadedOnce(row, host);
  }

  lemma EmptyHostIsEmpty()
    ensures Hosts.NormalizeRequestHost("") == ""
  {
    assert Strip("") == "" && Lower("") == "";
  }

  lemma LoadedOnce(row: Settings, host: string)
    ensures var list := Hosts.Loaded(ListOf(row.hosts), |ListOf(row.hosts)|);
      (exists i :: 0 <= i < |list| && Lower(list[i]) == host) <==> HostStored(row.hosts, host)
  {
    hide Strip, Lower, Hosts.Loaded, HostStored;
    var list := Hosts.Loaded(ListOf(row.hosts), |ListOf(row.hosts)|);
    if i :| 0 <= i < |list| && Lower(list[i]) == host {
      LoadedThenStored(row, host, i);
    }
    if HostStored(row.hosts, host) {
      var i := StoredThenLoaded(row, host);
    }
  }

  lemma LoadedThenStored(row: Settings, host: string, i: nat)
    requires var list := Hosts.Loaded(ListOf(row.hosts), |ListOf(row.hosts)|); i < |list| && Lower(list[i]) == host
    ensures HostStored(row.hosts, host)
  {
    hide Strip, Lower, Hosts.Loaded;
    var items := ListOf(row.hosts);
    var list := Hosts.Loaded(items, |items|);
    Hosts.LoadedMeaning(items, |items|);
    assert list[i] in list;
    var k :| 0 <= k < |items| && Strip(items[k]) != "" && list[i] == Lower(Strip(items[k]));
    LowerIdempotent(Strip(items[k]));
    assert Lower(Strip(items[k])) == host;
  }

  lemma StoredThenLoaded(row: Settings, host: string) returns (i: nat)
    requires HostStored(row.hosts, host)
    ensures var list := Hosts.Loaded(ListOf(row.hosts), |ListOf(row.hosts)|); i < |list| && Lower(list[i]) == host
  {
    hide Strip, Lower, Hosts.Loaded;
    var items := ListOf(row.hosts);
    var list := Hosts.Loaded(items, |items|);
    Hosts.LoadedMeaning(items, |items|);
    var k :| 0 <= k < |items| && Strip(items[k]) != "" && Lower(Strip(items[k])) == host;
    LowerIdempotent(Strip(items[k]));
    assert host in list;
    i :| 0 <= i < |list| && list[i] == host;
  }

  lemma AddressOkIsPassing(ip: Cidr.IpText, row: Settings, bypass: bool, r: Request)
    ensures AddressOk(ip, row, bypass, r.clientIp) <==> IpPasses(ip, RowToPolicy(row), bypass, r)
  {
    hide Hosts.Loaded, Cidr.ListedPrefix, Cidr.EntryCovers;
    if ip.address(r.clientIp).Some? {
      forall i | 0 <= i < |ListOf(row.cidrs)|
        ensures Cidr.EntryCovers(ip, ListOf(row.cidrs)[i], ip.address(r.clientIp).value)
           <==> Cidr.ListedPrefix(ip, ListOf(row.cidrs)[i], ip.address(r.clientIp).value)
      {
        Cidr.CoversIsListed(ip, ListOf(row.cidrs)[i], ip.address(r.clientIp).value);
      }
    }
  }

  lemma LoggedInIsAuthenticated(p: Policy, credentials: Option<string>)
    ensures LoggedIn(p.username, p.passwordHash, credentials) <==> Authenticates(p, credentials)
  {
    hide IndexOf;
    if credentials.Some? {
      var raw := credentials.value;
      var k := IndexOf(raw, ':');
      if k < |raw| {
        SplitAtColon(raw, k);
      }
      forall u: string, w: string | raw == u + ":" + w && ':' !in u
        ensures k == |u| && raw[..k] == u && raw[k + 1..] == w
      {
        assert forall i | 0 <= i < |u| :: raw[i] == u[i] && u[i] in u;
        IndexOfAt(raw, ':', |u|);
      }
    }
  }

  lemma SplitAtColon(raw: string, k: nat)
    requires k < |raw| && raw[k] == ':' && forall i | 0 <= i < k :: raw[i] != ':'
    ensures raw == raw[..k] + ":" + raw[k + 1..] && ':' !in raw[..k]
  {
    assert raw[k..k + 1] == ":";
  }

  // ---------------------------------------------------------------- one request

  // Everything but the login.
  ghost predicate ChecksPass(ip: Cidr.IpText, ips: Hosts.HostIps, row: Settings, bypass: bool, r: Request) {
    HostOk(ips, row, bypass, r.host) && (r.mutating ==> r.originMatches) && AddressOk(ip, row, bypass, r.clientIp)
  }

  lemma ChecksPassMeans(ip: Cidr.IpText, ips: Hosts.HostIps, row: Settings, bypass: bool, r: Request)
    ensures ChecksPass(ip, ips, row, bypass, r)
       <==> HostPasses(ips, RowToPolicy(row), bypass, r) && OriginPasses(r) && IpPasses(ip, RowToPolicy(row), bypass, r)
  {
    hide HostOk, HostPasses, AddressOk, IpPasses, RowToPolicy;
    HostOkIsPassing(ips, row, bypass, r);
    AddressOkIsPassing(ip, row, bypass, r);
  }

  lemma PolicyShowsRow(row: Settings)
    ensures var p := RowToPolicy(row);
      && p.authEnabled == row.authEnabled && p.username == row.username && p.passwordHash == row.passwordHash
      && p.defaultCredentials == row.defaultCredentials && p.cidrEnabled == row.cidrEnabled
      && p.hostEnabled == row.hostEnabled
      && p.cidrs == (if row.cidrs.Items? then row.cidrs.items else [])
      && forall v :: v in p.hosts <==>
           (row.hosts.Items? && exists i ::
             0 <= i < |row.hosts.items| && Strip(row.hosts.items[i]) != "" && v == Lower(Strip(row.hosts.items[i])))
  {
    hide Strip, Lower, Hosts.Loaded;
    Hosts.LoadedMeaning(ListOf(row.hosts), |ListOf(row.hosts)|);
  }

  /**
    A request is served exactly when its path is open, or it passes the host, origin and address
    checks of the stored row and, if the row or the path asks for a login, carries the stored user
    name and its password while its address is below the failure limit.
   */
  method ServedExactly(service: SecurityService, limiter: FailureLimiter, ip: Cidr.IpText, ips: Hosts.HostIps,
      r: Request, bypass: bool, checkedAt: real, recordedAt: real, chance: Chance) returns (v: Verdict)
    requires service.Valid() && limiter.Valid() && limiter.clock <= checkedAt <= recordedAt
    modifies service, limiter, limiter.repr
    ensures var row := EnsuredRow(old(service.table), chance);
      v == Served <==>
        || Open(r.path)
        || (&& ChecksPass(ip, ips, row, bypass, r)
            && (LoginNeeded(row, r.path) ==>
                  && LoggedIn(row.username, row.passwordHash, r.credentials)
                  && !TooManyAt(old(limiter.history), r.clientIp, checkedAt)))
  {
    hide Open, ChecksPass, LoginNeeded, LoggedIn, TooManyAt, IsPublicPath, HostPasses, IpPasses, OriginPasses,
      RequiresAuth,
      Authenticates, RowToPolicy, EnsuredRow, Refused;
    ghost var row := EnsuredRow(service.table, chance);
    ghost var h := limiter.history;
    OpenIsPublic(r.path);
    ChecksPassMeans(ip, ips, row, bypass, r);
    LoginNeededIsRequired(row, r);
    LoggedInIsAuthenticated(RowToPolicy(row), r.credentials);
    PolicyShowsRow(row);
    RefusedIsTooMany(h, r.clientIp, checkedAt);
    v := Dispatch(service, limiter, ip, ips, r, bypass, checkedAt, recordedAt, chance);
  }

  // ---------------------------------------------------------------- the failure limit

  // The failures of an address in the last sixty seconds, by their place in its history.
  ghost function RecentFailures(h: History, client: string, now: real): set<nat> {
    if client in h then set i: nat | i < |h[client]| && h[client][i] >= now - 60.0 else {}
  }

  /** Ten failures in the last sixty seconds; a request without an address is not limited. */
  ghost predicate TooManyAt(h: History, client: string, now: real) {
    client != "" && |RecentFailures(h, client, now)| >= 10
  }

  lemma {:induction false} WindowSize(times: seq<real>, cutoff: real, from: nat)
    requires from <= |times|
    ensures |InWindow(times[from..], cutoff)| == |set i: nat | from <= i < |times| && times[i] >= cutoff|
    decreases |times| - from
  {
    var here := set i: nat | from <= i < |times| && times[i] >= cutoff;
    if from < |times| {
      WindowSize(times, cutoff, from + 1);
      var rest := set i: nat | from + 1 <= i < |times| && times[i] >= cutoff;
      assert times[from..][1..] == times[from + 1..];
      if times[from] >= cutoff {
        assert here == rest + {from};
      } else {
        assert here == rest;
      }
    } else {
      assert here == {};
    }
  }

  lemma RefusedIsTooMany(h: History, client: string, now: real)
    ensures Refused(h, client, now) <==> TooManyAt(h, client, now)
  {
    if client in h {
      WindowSize(h[client], now - 60.0, 0);
      assert h[client][0..] == h[client];
      assert RecentFailures(h, client, now) == set i: nat | 0 <= i < |h[client]| && h[client][i] >= now - 60.0;
    }
  }

  // ---------------------------------------------------------------- any interleaving

  // The requests that wait are those that arrived without a verdict, with the row of that moment.
  ghost predicate WaitsSince(table: Table, events: seq<Event>, verdicts: seq<Option<Verdict>>, k: nat, w: Waiting,
      ip: Cidr.IpText, ips: Hosts.HostIps)
  {
    && k < |events| && k < |verdicts| && events[k].Arrives? && verdicts[k] == None
    && w == Waiting(events[k].r, RowToPolicy(RowAt(table, events, verdicts, k, ip, ips)))
  }

  // The stored row when event k, a request, arrives.
  ghost function RowAt(table: Table, events: seq<Event>, verdicts: seq<Option<Verdict>>, k: nat, ip: Cidr.IpText,
      ips: Hosts.HostIps): Settings
    requires k < |events| && k <= |verdicts| && events[k].Arrives?
  {
    EnsuredRow(WorldAfter(table, events, verdicts, k, ip, ips).table, events[k].chance)
  }

  lemma {:induction false} WaitingSinceArrival(table: Table, events: seq<Event>, verdicts: seq<Option<Verdict>>, n: nat,
      k: nat, ip: Cidr.IpText, ips: Hosts.HostIps)
    requires n <= |events| && n <= |verdicts| && k in WorldAfter(table, events, verdicts, n, ip, ips).waiting
    ensures k < n
    ensures WaitsSince(table, events, verdicts, k, WorldAfter(table, events, verdicts, n, ip, ips).waiting[k], ip, ips)
  {
    hide TableAfterCall, RowToPolicy, EnsuredRow, Ensured, IsPublicPath, HistoryAfterArrival, HistoryAfterVerdict;
    if n > 0 && k in WorldAfter(table, events, verdicts, n - 1, ip, ips).waiting {
      WaitingSinceArrival(table, events, verdicts, n - 1, k, ip, ips);
    }
  }

  /**
    In any interleaving: a request without login is served on arrival exactly when it passes the
    checks of the row stored then; one with login is served when its password is verified, exactly
    if it is that of the row stored on arrival, having passed the checks and the failure limit.
   */
  lemma ServedInAnyOrder(table: Table, events: seq<Event>, verdicts: seq<Option<Verdict>>, i: nat, ip: Cidr.IpText,
      ips: Hosts.HostIps)
    requires i < |events| && |verdicts| == |events| && AllFit(table, events, verdicts, |events|, ip, ips)
    ensures events[i].Arrives? && !Open(events[i].r.path) ==>
      var e, row := events[i], RowAt(table, events, verdicts, i, ip, ips);
      && (verdicts[i] == Some(Served) <==> ChecksPass(ip, ips, row, e.bypass, e.r) && !LoginNeeded(row, e.r.path))
      && (verdicts[i] == None ==>
            && ChecksPass(ip, ips, row, e.bypass, e.r) && LoginNeeded(row, e.r.path)
            && !TooManyAt(WorldAfter(table, events, verdicts, i, ip, ips).history, e.r.clientIp, e.checkedAt))
    ensures events[i].Verified? && events[i].k in WorldAfter(table, events, verdicts, i, ip, ips).waiting ==>
      var k := events[i].k;
      && k < i && events[k].Arrives? && verdicts[k] == None
      && var row := RowAt(table, events, verdicts, k, ip, ips);
         var loggedIn := LoggedIn(row.username, row.passwordHash, events[k].r.credentials);
         verdicts[i] == Some(if loggedIn then Served else Unauthorized)
    ensures verdicts[i] == Some(Served) ==>
      || events[i].Arrives?
      || (events[i].Verified? && events[i].k in WorldAfter(table, events, verdicts, i, ip, ips).waiting)
  {
    hide WorldAfter, Open, ChecksPass, LoginNeeded, LoggedIn, TooManyAt, IsPublicPath, HostPasses, IpPasses,
      OriginPasses,
      RequiresAuth, Authenticates, RowToPolicy, EnsuredRow, Refused, Parsed;
    var w, e := WorldAfter(table, events, verdicts, i, ip, ips), events[i];
    assert EventFits(w, e, verdicts[i], ip, ips);
    match e
    case Arrives(r, bypass, checkedAt, _, _) =>
      var row := RowAt(table, events, verdicts, i, ip, ips);
      OpenIsPublic(r.path);
      ChecksPassMeans(ip, ips, row, bypass, r);
      LoginNeededIsRequired(row, r);
      RefusedIsTooMany(w.history, r.clientIp, checkedAt);
    case Verified(k, _) =>
      if k in w.waiting {
        WaitingSinceArrival(table, events, verdicts, i, k, ip, ips);
        LoggedInIsAuthenticated(w.waiting[k].p, w.waiting[k].r.credentials);
        PolicyShowsRow(RowAt(table, events, verdicts, k, ip, ips));
      }
    case Updates(_, _) =>
  }
}
