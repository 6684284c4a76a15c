/** The order of decisions in the access control middleware (app/security/middleware.py, dispatch). */
module Middleware {
  import opened Base
  import opened Text
  import Allowlist
  import Cidr
  import Hosts
  import opened Security
  import opened Limiter

  const MAX_BASIC_USERNAME_LEN: nat := 64
  const MAX_BASIC_PASSWORD_LEN: nat := 256

  // `credentials` is the decoded text of a Basic authorization header, if there is one.
  datatype Request = Request(
    path: string, mutating: bool, host: string, clientIp: string, originMatches: bool, credentials: Option<string>)

  datatype Verdict = Served | HostRefused | OriginRefused | IpRefused | TooManyFailures | Unauthorized

  predicate StartsWith(s: string, prefix: string) {
    prefix <= s
  }

  predicate IsPublicPath(path: string) {
    path == "/healthz" || path == "/readyz" || StartsWith(path, "/static/")
  }

  predicate RequiresAuth(p: Policy, r: Request) {
    StartsWith(r.path, "/security") || p.authEnabled
  }

  function ParseBasicAuth(raw: string): Option<(string, string)> {
    var k := IndexOf(raw, ':');
    if k == |raw| then None
    else if k > MAX_BASIC_USERNAME_LEN || |raw| - k - 1 > MAX_BASIC_PASSWORD_LEN then None
    else Some((raw[..k], raw[k + 1..]))
  }

  // The user name and password of the header, if they can be read.
  function Parsed(credentials: Option<string>): Option<(string, string)> {
    if credentials.Some? then ParseBasicAuth(credentials.value) else None
  }

  predicate Authenticates(p: Policy, credentials: Option<string>) {
    && Parsed(credentials).Some?
    && Parsed(credentials).value.0 == p.username && VerifyPassword(Parsed(credentials).value.1, p.passwordHash)
  }

  predicate HostPasses(ips: Hosts.HostIps, p: Policy, bypass: bool, r: Request) {
    p.hostEnabled && !bypass ==> Hosts.HostAllowed(ips, Hosts.NormalizeRequestHost(r.host), true, p.hosts)
  }

  predicate IpPasses(ip: Cidr.IpText, p: Policy, bypass: bool, r: Request) {
    p.cidrEnabled && !bypass ==> Cidr.ClientAllowed(ip, r.clientIp, p.cidrs)
  }

  predicate OriginPasses(r: Request) {
    r.mutating ==> r.originMatches
  }

  /** When each verdict is given, in the order of the checks. */
  ghost predicate VerdictFits(v: Verdict, p: Policy, ip: Cidr.IpText, ips: Hosts.HostIps, bypass: bool, r: Request,
      exceeded: bool) {
    var host, origin, address := HostPasses(ips, p, bypass, r), OriginPasses(r), IpPasses(ip, p, bypass, r);
    var login := RequiresAuth(p, r);
    && (v == HostRefused <==> !host)
    && (v == OriginRefused <==> host && !origin)
    && (v == IpRefused <==> host && origin && !address)
    && (v == TooManyFailures <==> host && origin && address && login && exceeded)
    && (v == Unauthorized <==> host && origin && address && login && !exceeded && !Authenticates(p, r.credentials))
  }

  // A failed login is recorded, a successful one clears the record.
  ghost function HistoryAfterVerdict(h: History, v: Verdict, login: bool, clientIp: string, at: real): History {
    if v == Unauthorized then Recorded(h, clientIp, at)
    else if v == Served && login then h - {clientIp}
    else h
  }

  /** What is decided before the password is verified; None: the request now waits for that. */
  ghost predicate ArrivalFits(v: Option<Verdict>, p: Policy, ip: Cidr.IpText, ips: Hosts.HostIps, bypass: bool,
      r: Request, exceeded: bool) {
    var host, origin, address := HostPasses(ips, p, bypass, r), OriginPasses(r), IpPasses(ip, p, bypass, r);
    var login := host && origin && address && RequiresAuth(p, r);
    && (v == Some(HostRefused) <==> !host)
    && (v == Some(OriginRefused) <==> host && !origin)
    && (v == Some(IpRefused) <==> host && origin && !address)
    && (v == Some(TooManyFailures) <==> login && exceeded)
    && (v == Some(Unauthorized) <==> login && !exceeded && Parsed(r.credentials).None?)
    && (v == None <==> login && !exceeded && Parsed(r.credentials).Some?)
    && (v == Some(Served) <==> host && origin && address && !login)
  }

  ghost function HistoryAfterArrival(h: History, v: Option<Verdict>, clientIp: string, at: real): History {
    if v == Some(Unauthorized) then Recorded(h, clientIp, at) else h
  }

  // dispatch up to the await: the policy in force is read here and not again
  method Arrive(service: SecurityService, limiter: FailureLimiter, ip: Cidr.IpText, ips: Hosts.HostIps,
      r: Request, bypass: bool, checkedAt: real, recordedAt: real, chance: Chance)
      returns (v: Option<Verdict>, p: Policy)
    requires !IsPublicPath(r.path)
    requires service.Valid() && limiter.Valid() && limiter.clock <= checkedAt <= recordedAt
    modifies service, limiter, limiter.repr
    ensures service.Valid() && service.table == Ensured(old(service.table), chance)
    ensures p == RowToPolicy(EnsuredRow(old(service.table), chance))
    ensures limiter.Valid() && limiter.clock <= recordedAt
    ensures limiter.repr >= old(limiter.repr) && fresh(limiter.repr - old(limiter.repr))
    ensures ArrivalFits(v, p, ip, ips, bypass, r, Refused(old(limiter.history), r.clientIp, checkedAt))
    ensures limiter.history == HistoryAfterArrival(old(limiter.history), v, r.clientIp, recordedAt)
  {
    hide Hosts.HostAllowed, Hosts.NormalizeRequestHost, Cidr.ClientAllowed, IsPublicPath, RowToPolicy, EnsuredRow,
      Ensured, Refused, Recorded, Parsed, StartsWith;
    p := service.GetSecurityPolicy(true, chance);
    if p.hostEnabled && !bypass && !Hosts.HostAllowed(ips, Hosts.NormalizeRequestHost(r.host), true, p.hosts) {
      return Some(HostRefused), p;
    }
    if r.mutating && !r.originMatches {
      return Some(OriginRefused), p;
    }
    if p.cidrEnabled && !bypass {
      var allowed := Cidr.ClientIpAllowed(ip, r.clientIp, p.cidrs);
      if !allowed {
        return Some(IpRefused), p;
      }
    }
    if !RequiresAuth(p, r) {
      return Some(Served), p;
    }
    v := AdmitLogin(limiter, r, checkedAt, recordedAt);
  }

  // The login of a request that has passed the other checks, up to the await.
  method AdmitLogin(limiter: FailureLimiter, r: Request, checkedAt: real, recordedAt: real) returns (v: Option<Verdict>)
    requires limiter.Valid() && limiter.clock <= checkedAt <= recordedAt
    modifies limiter, limiter.repr
    ensures limiter.Valid() && limiter.clock <= recordedAt
    ensures limiter.repr >= old(limiter.repr) && fresh(limiter.repr - old(limiter.repr))
    ensures v == if Refused(old(limiter.history), r.clientIp, checkedAt) then Some(TooManyFailures)
                 else if Parsed(r.credentials).None? then Some(Unauthorized) else None
    ensures limiter.history == HistoryAfterArrival(old(limiter.history), v, r.clientIp, recordedAt)
  {
    hide Refused, Recorded, Parsed;
    var exceeded := limiter.AuthFailuresExceeded(r.clientIp, checkedAt);
    if exceeded {
      return Some(TooManyFailures);
    }
    if Parsed(r.credentials).None? {
      limiter.RecordAuthFailure(r.clientIp, recordedAt);
      return Some(Unauthorized);
    }
    return None;
  }

  // dispatch after the await, with the policy read on arrival
  method Complete(limiter: FailureLimiter, p: Policy, r: Request, recordedAt: real) returns (v: Verdict)
    requires limiter.Valid() && limiter.clock <= recordedAt
    modifies limiter, limiter.repr
    ensures limiter.Valid() && limiter.clock <= recordedAt
    ensures limiter.repr >= old(limiter.repr) && fresh(limiter.repr - old(limiter.repr))
    ensures v == if Authenticates(p, r.credentials) then Served else Unauthorized
    ensures limiter.history == HistoryAfterVerdict(old(limiter.history), v, true, r.clientIp, recordedAt)
  {
    hide Recorded, Authenticates;
    if !Authenticates(p, r.credentials) {
      limiter.RecordAuthFailure(r.clientIp, recordedAt);
      return Unauthorized;
    }
    limiter.ClearAuthFailures(r.clientIp);
    return Served;
  }

  /**
    One request without others in between. Its policy is the one stored, whether cached or not,
    and the failures counted are all those in the window.
   */
  method Dispatch(service: SecurityService, limiter: FailureLimiter, ip: Cidr.IpText, ips: Hosts.HostIps,
      r: Request, bypass: bool, checkedAt: real, recordedAt: real, chance: Chance) returns (v: Verdict)
    requires service.Valid() && limiter.Valid() && limiter.clock <= checkedAt <= recordedAt
    modifies service, limiter, limiter.repr
    ensures service.Valid() && limiter.Valid()
    ensures IsPublicPath(r.path) ==>
      v == Served && service.table == old(service.table) && limiter.history == old(limiter.history)
    ensures !IsPublicPath(r.path) ==>
      var p := RowToPolicy(EnsuredRow(old(service.table), chance));
      && service.table == Ensured(old(service.table), chance)
      && VerdictFits(v, p, ip, ips, bypass, r, Refused(old(limiter.history), r.clientIp, checkedAt))
      && limiter.history == HistoryAfterVerdict(old(limiter.history), v, RequiresAuth(p, r), r.clientIp, recordedAt)
  {
    hide Hosts.HostAllowed, Hosts.NormalizeRequestHost, Cidr.ClientAllowed, IsPublicPath, RowToPolicy, EnsuredRow,
      Ensured, Refused, Recorded, Parsed, StartsWith, HostPasses, IpPasses, OriginPasses;
    if IsPublicPath(r.path) {
      return Served;
    }
    var early, p := Arrive(service, limiter, ip, ips, r, bypass, checkedAt, recordedAt, chance);
    if early.Some? {
      return early.value;
    }
    v := Complete(limiter, p, r, recordedAt);
  }

  // ---------------------------------------------------------------- requests in any interleaving

  // A request arrives, the password of the request that arrived as event k is verified, or the settings change.
  datatype Event =
    | Arrives(r: Request, bypass: bool, checkedAt: real, recordedAt: real, chance: Chance)
    | Verified(k: nat, at: real)
    | Updates(call: Security.Call, at: real)

  function StartOf(e: Event): real {
    if e.Arrives? then e.checkedAt else e.at
  }

  function EndOf(e: Event): real {
    if e.Arrives? then e.recordedAt else e.at
  }

  ghost predicate InOrder(events: seq<Event>) {
    && (forall i | 0 <= i < |events| :: StartOf(events[i]) <= EndOf(events[i]))
    && (forall i, j | 0 <= i < j < |events| :: EndOf(events[i]) <= StartOf(events[j]))
  }

  datatype Waiting = Waiting(r: Request, p: Policy)

  // The stored row, all failures since the last clear, and the requests waiting for their verification.
  datatype World = World(table: Table, history: History, waiting: map<nat, Waiting>)

  ghost function PolicyAt(w: World, e: Event): Policy
    requires e.Arrives?
  {
    RowToPolicy(EnsuredRow(w.table, e.chance))
  }

  /** The verdict of one event, None while there is none. */
  ghost predicate EventFits(w: World, e: Event, v: Option<Verdict>, ip: Cidr.IpText, ips: Hosts.HostIps) {
    match e
    case Arrives(r, bypass, checkedAt, _, _) =>
      if IsPublicPath(r.path) then v == Some(Served)
      else ArrivalFits(v, PolicyAt(w, e), ip, ips, bypass, r, Refused(w.history, r.clientIp, checkedAt))
    case Verified(k, _) =>
      if k !in w.waiting then v == None
      else v == Some(if Authenticates(w.waiting[k].p, w.waiting[k].r.credentials) then Served else Unauthorized)
    case Updates(_, _) => v == None
  }

  // What event number i and its verdict leave behind.
  ghost function AfterEvent(w: World, i: nat, e: Event, v: Option<Verdict>, ip: Cidr.IpText,
      ips: Hosts.HostIps): World {
    match e
    case Arrives(r, _, _, recordedAt, chance) =>
      if IsPublicPath(r.path) then w
      else World(Ensured(w.table, chance), HistoryAfterArrival(w.history, v, r.clientIp, recordedAt),
                 if v.None? then w.waiting[i := Waiting(r, PolicyAt(w, e))] else w.waiting)
    case Verified(k, at) =>
      if k !in w.waiting || v.None? then w
      else w.(history := HistoryAfterVerdict(w.history, v.value, true, w.waiting[k].r.clientIp, at),
        waiting := w.waiting - {k})
    case Updates(call, _) => w.(table := TableAfterCall(ip, ips, w.table, call))
  }

  ghost function WorldAfter(table: Table, events: seq<Event>, verdicts: seq<Option<Verdict>>, n: nat,
      ip: Cidr.IpText, ips: Hosts.HostIps): World
    requires n <= |events| && n <= |verdicts|
  {
    if n == 0 then World(table, map[], map[])
    else AfterEvent(WorldAfter(table, events, verdicts, n - 1, ip, ips), n - 1, events[n - 1], verdicts[n - 1], ip, ips)
  }

  lemma {:induction false} WorldPrefix(table: Table, events: seq<Event>, verdicts: seq<Option<Verdict>>,
      v: Option<Verdict>, n: nat,
      ip: Cidr.IpText, ips: Hosts.HostIps)
    requires n <= |events| && n <= |verdicts|
    ensures WorldAfter(table, events, verdicts + [v], n, ip, ips) == WorldAfter(table, events, verdicts, n, ip, ips)
  {
    hide AfterEvent;
    if n > 0 {
      WorldPrefix(table, events, verdicts, v, n - 1, ip, ips);
    }
  }

  ghost predicate AllFit(table: Table, events: seq<Event>, verdicts: seq<Option<Verdict>>, n: nat, ip: Cidr.IpText,
      ips: Hosts.HostIps)
    requires n <= |events| && n <= |verdicts|
  {
    forall k | 0 <= k < n :: EventFits(WorldAfter(table, events, verdicts, k, ip, ips), events[k], verdicts[k], ip, ips)
  }

  lemma OneMoreFits(table: Table, events: seq<Event>, verdicts: seq<Option<Verdict>>, v: Option<Verdict>,
      ip: Cidr.IpText, ips: Hosts.HostIps)
    requires |verdicts| < |events| && AllFit(table, events, verdicts, |verdicts|, ip, ips)
    requires EventFits(WorldAfter(table, events, verdicts, |verdicts|, ip, ips), events[|verdicts|], v, ip, ips)
    ensures AllFit(table, events, verdicts + [v], |verdicts| + 1, ip, ips)
    ensures WorldAfter(table, events, verdicts + [v], |verdicts| + 1, ip, ips)
         == AfterEvent(WorldAfter(table, events, verdicts, |verdicts|, ip, ips), |verdicts|, events[|verdicts|], v,
           ip, ips)
  {
    hide EventFits, AfterEvent;
    forall k | 0 <= k <= |verdicts|
      ensures WorldAfter(table, events, verdicts + [v], k, ip, ips) == WorldAfter(table, events, verdicts, k, ip, ips)
    {
      WorldPrefix(table, events, verdicts, v, k, ip, ips);
    }
  }

  method Handle(service: SecurityService, limiter: FailureLimiter, waiting: map<nat, Waiting>, i: nat, e: Event,
      ip: Cidr.IpText, ips: Hosts.HostIps) returns (v: Option<Verdict>, later: map<nat, Waiting>)
    requires service.Valid() && limiter.Valid() && limiter.clock <= StartOf(e) <= EndOf(e)
    modifies service, limiter, limiter.repr
    ensures service.Valid() && limiter.Valid() && limiter.clock <= EndOf(e)
    ensures limiter.repr >= old(limiter.repr) && fresh(limiter.repr - old(limiter.repr))
    ensures EventFits(World(old(service.table), old(limiter.history), waiting), e, v, ip, ips)
    ensures World(service.table, limiter.history, later)
         == AfterEvent(World(old(service.table), old(limiter.history), waiting), i, e, v, ip, ips)
  {
    hide IsPublicPath, RowToPolicy, EnsuredRow, Ensured, Refused, Recorded, ArrivalFits, HistoryAfterArrival,
      HistoryAfterVerdict, Authenticates, TableAfterCall;
    v, later := None, waiting;
    match e {
      case Arrives(r, bypass, checkedAt, recordedAt, chance) =>
        if IsPublicPath(r.path) {
          v := Some(Served);
        } else {
          var p;
          v, p := Arrive(service, limiter, ip, ips, r, bypass, checkedAt, recordedAt, chance);
          if v.None? {
            later := waiting[i := Waiting(r, p)];
          }
        }
      case Verified(k, at) =>
        if k in waiting {
          var verdict := Complete(limiter, waiting[k].p, waiting[k].r, at);
          v, later := Some(verdict), waiting - {k};
        }
      case Updates(call, _) =>
        var _ := RunCall(service, ip, ips, call);
    }
  }

  lemma WorldAtStart(table: Table, events: seq<Event>, ip: Cidr.IpText, ips: Hosts.HostIps)
    ensures WorldAfter(table, events, [], 0, ip, ips) == World(table, map[], map[])
      && AllFit(table, events, [], 0, ip, ips)
  {
  }

  /**
    Any interleaving of requests, verifications and settings changes: each request is judged by
    the row stored when it arrives and by all failures of its address until then; its password
    is verified against that same row, and only then recorded as a failure or a success.
   */
  method Serve(table: Table, events: seq<Event>, ip: Cidr.IpText, ips: Hosts.HostIps)
      returns (verdicts: seq<Option<Verdict>>)
    requires InOrder(events)
    ensures |verdicts| == |events| && AllFit(table, events, verdicts, |events|, ip, ips)
  {
    hide EventFits, AfterEvent, WorldAfter, AllFit;
    WorldAtStart(table, events, ip, ips);
    var service := new SecurityService(table);
    var limiter := new FailureLimiter(if events == [] then 0.0 else StartOf(events[0]));
    var waiting: map<nat, Waiting> := map[];
    verdicts := [];
    for i := 0 to |events|
      invariant fresh(service) && service.Valid() && fresh(limiter) && fresh(limiter.repr) && limiter.Valid()
      invariant forall j | i <= j < |events| :: limiter.clock <= StartOf(events[j])
      invariant |verdicts| == i
      invariant World(service.table, limiter.history, waiting) == WorldAfter(table, events, verdicts, i, ip, ips)
      invariant AllFit(table, events, verdicts, i, ip, ips)
    {
      var v, later := Handle(service, limiter, waiting, i, events[i], ip, ips);
      OneMoreFits(table, events, verdicts, v, ip, ips);
      verdicts := verdicts + [v];
      waiting := later;
    }
  }

  // ---------------------------------------------------------------- no lockout by one's own update

  /**
    After a permitted update that enables the restriction, an address is let in exactly when one
    of the valid lines covers it; the author's own address is, unless the override was confirmed.
   */
  lemma NoCidrSelfLockout(ip: Cidr.IpText, s: Settings, a: CidrArgs, r: Request)
    requires Cidr.Lawful(ip) && CidrPermitted(ip, a) && a.enabled
    ensures IpPasses(ip, RowToPolicy(AfterCidr(s, ip, a)), false, r)
       <==> ip.address(r.clientIp).Some? && exists k ::
              (0 <= k < |Allowlist.EntriesOf(a.text)|
                && Cidr.ListedPrefix(ip, Allowlist.EntriesOf(a.text)[k].1, ip.address(r.clientIp).value))
    ensures r.clientIp == a.clientIp ==>
      IpPasses(ip, RowToPolicy(AfterCidr(s, ip, a)), false, r) || Overridden(a.allowLockout, a.confirmation)
  {
    hide Allowlist.Normalized, Overridden, Cidr.ClientAllowed, Cidr.ListedPrefix, Cidr.Lawful, Hosts.Loaded;
    Cidr.AllowedMeansCovered(ip, r.clientIp, a.text);
    Allowlist.NormalizedMeaning(Cidr.Accept(ip), Cidr.MAX_CIDR_ENTRIES, a.text);
  }

  /** Who saves a host list without the override is not refused for the Host header sent. */
  lemma NoHostSelfLockout(ips: Hosts.HostIps, s: Settings, a: HostArgs, bypass: bool, r: Request)
    requires Hosts.Lawful(ips) && HostsPermitted(ips, a) && r.host == a.requestHost
    requires !Overridden(a.allowLockout, a.confirmation)
    ensures HostPasses(ips, RowToPolicy(AfterHosts(s, ips, a)), bypass, r)
  {
    hide Hosts.HostAllowed, Hosts.NormalizeRequestHost, Hosts.Lawful, Overridden, Allowlist.Normalized,
      Allowlist.Errors;
    if a.enabled {
      Hosts.LoadingKeepsAccess(ips, a.text, a.requestHost);
    }
  }

  // Only a CIDR update touches the CIDR part of the row, only a host update the host part.
  lemma {:induction false} PartsLast(ip: Cidr.IpText, ips: Hosts.HostIps, table: Table, calls: seq<Security.Call>,
      n: nat)
    requires n <= |calls| && SECURITY_SETTINGS_ID in table
    ensures SECURITY_SETTINGS_ID in TableAfter(ip, ips, table, calls, n)
    ensures var before, after := table[SECURITY_SETTINGS_ID],
      TableAfter(ip, ips, table, calls, n)[SECURITY_SETTINGS_ID];
      && ((forall c | c in calls :: !c.SaveCidr?) ==>
        after.cidrEnabled == before.cidrEnabled && after.cidrs == before.cidrs)
      && ((forall c | c in calls :: !c.SaveHosts?) ==>
        after.hostEnabled == before.hostEnabled && after.hosts == before.hosts)
  {
    hide AuthPermitted, CidrPermitted, HostsPermitted, CidrList, HostList;
    if n > 0 {
      assert calls[n - 1] in calls;
      PartsLast(ip, ips, table, calls, n - 1);
    }
  }

  // The request comes from the address an update without override was made from.
  ghost predicate AuthorOfCidr(ip: Cidr.IpText, update: Security.Call, r: Request) {
    && update.SaveCidr? && CidrPermitted(ip, update.cidr) && r.clientIp == update.cidr.clientIp
    && !Overridden(update.cidr.allowLockout, update.cidr.confirmation)
  }

  // The request names the host an update without override was made through.
  ghost predicate AuthorOfHosts(ips: Hosts.HostIps, update: Security.Call, r: Request) {
    && update.SaveHosts? && HostsPermitted(ips, update.host) && r.host == update.host.requestHost
    && !Overridden(update.host.allowLockout, update.host.confirmation)
  }

  /**
    The author of either update keeps access through any later calls, restarts included, until
    the same settings are saved again.
   */
  lemma AccessLasts(ip: Cidr.IpText, ips: Hosts.HostIps, table: Table, update: Security.Call,
      later: seq<Security.Call>, n: nat, bypass: bool, r: Request)
    requires Cidr.Lawful(ip) && Hosts.Lawful(ips) && n <= |later|
    requires update.SaveCidr? || update.SaveHosts?
    ensures var first := TableAfterCall(ip, ips, table, update);
      && SECURITY_SETTINGS_ID in TableAfter(ip, ips, first, later, n)
      && var p := RowToPolicy(TableAfter(ip, ips, first, later, n)[SECURITY_SETTINGS_ID]);
         && (AuthorOfCidr(ip, update, r) && (forall c | c in later :: !c.SaveCidr?) ==> IpPasses(ip, p, bypass, r))
         && (AuthorOfHosts(ips, update, r) && (forall c | c in later :: !c.SaveHosts?) ==>
               HostPasses(ips, p, bypass, r))
  {
    hide Overridden, Cidr.ClientAllowed, Cidr.Lawful, Hosts.Lawful, Hosts.Loaded, Hosts.HostAllowed,
      Hosts.NormalizeRequestHost, CidrPermitted, HostsPermitted, CidrList, HostList;
    var first := TableAfterCall(ip, ips, table, update);
    PartsLast(ip, ips, first, later, n);
    var row := EnsuredRow(table, update.chance);
    if AuthorOfCidr(ip, update, r) && update.cidr.enabled {
      NoCidrSelfLockout(ip, row, update.cidr, r);
    }
    if AuthorOfHosts(ips, update, r) {
      NoHostSelfLockout(ips, row, update.host, bypass, r);
    }
  }

  /**
    A saved new password opens the door exactly when it is not longer than what the middleware
    reads from a header; the update itself sets no upper limit.
   */
  lemma SavedPasswordLogsIn(s: Settings, a: AuthArgs, salt: nat)
    requires AuthPermitted(s, a) && a.newPassword != ""
    ensures Authenticates(RowToPolicy(AfterAuth(s, a, salt)), Some(Strip(a.username) + ":" + a.newPassword))
       <==> |a.newPassword| <= MAX_BASIC_PASSWORD_LEN
  {
    hide Strip, Hosts.Loaded;
    var username := Strip(a.username);
    var raw := username + ":" + a.newPassword;
    assert forall i | 0 <= i < |username| :: username[i] in username;
    IndexOfAt(raw, ':', |username|);
    assert raw[..|username|] == username && raw[|username| + 1..] == a.newPassword;
  }

  function Repeat(c: char, n: nat): (r: string)
    ensures |r| == n
  {
    seq(n, _ => c)
  }

  /** On a new installation: the update is accepted, and nobody can log in any more. */
  lemma LongPasswordLocksOut(salt: nat, newSalt: nat, credentials: Option<string>)
    ensures var a := AuthArgs(true, "admin", "admin", Repeat('a', 257), Repeat('a', 257), false);
      AuthPermitted(DefaultRow(salt), a)
        && !Authenticates(RowToPolicy(AfterAuth(DefaultRow(salt), a, newSalt)), credentials)
  {
    hide Strip, Hosts.Loaded;
    StripFixes("admin");
  }
}
