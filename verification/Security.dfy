/**
  The security settings service (app/security/service.py): one stored row, a cached policy, and
  updates that are refused when they would shut their author out.
 */
module Security {
  import opened Base
  import opened Text
  import Allowlist
  import Cidr
  import Hosts

  const SECURITY_SETTINGS_ID: nat := 1
  const DEFAULT_USERNAME := "admin"
  const DEFAULT_PASSWORD := "admin"
  const LOCKOUT_CONFIRMATION_PHRASE := "ALLOW LOCKOUT"
  const MIN_PASSWORD_LENGTH: nat := 12

  // A salted password hash, or any other text, which verifies no password.
  datatype Hash = Hashed(password: string, salt: nat) | Foreign

  // A JSON column: a list of strings, or something that cannot be read as one.
  datatype JsonColumn = Items(items: seq<string>) | Unreadable

  datatype Settings = Settings(
    authEnabled: bool, username: string, passwordHash: Hash, defaultCredentials: bool,
    cidrEnabled: bool, cidrs: JsonColumn, hostEnabled: bool, hosts: JsonColumn)

  datatype Policy = Policy(
    authEnabled: bool, username: string, passwordHash: Hash, defaultCredentials: bool,
    cidrEnabled: bool, cidrs: seq<string>, hostEnabled: bool, hosts: seq<string>)

  function ListOf(column: JsonColumn): seq<string> {
    if column.Items? then column.items else []
  }

  function RowToPolicy(row: Settings): Policy {
    Policy(row.authEnabled, row.username, row.passwordHash, row.defaultCredentials,
      row.cidrEnabled, ListOf(row.cidrs), row.hostEnabled, Hosts.Loaded(ListOf(row.hosts), |ListOf(row.hosts)|))
  }

  predicate VerifyPassword(password: string, hash: Hash) {
    hash.Hashed? && hash.password == password
  }

  function DefaultRow(salt: nat): Settings {
    Settings(true, DEFAULT_USERNAME, Hashed(DEFAULT_PASSWORD, salt), true, false, Items([]), true, Items([]))
  }

  // What a call cannot foresee: its salts, and another worker creating the row in between.
  datatype Chance = Chance(salt: nat, newSalt: nat, rival: Option<nat>)

  type Table = map<nat, Settings>

  function EnsuredRow(table: Table, chance: Chance): Settings {
    if SECURITY_SETTINGS_ID in table then table[SECURITY_SETTINGS_ID]
    else DefaultRow(if chance.rival.Some? then chance.rival.value else chance.salt)
  }

  function Ensured(table: Table, chance: Chance): Table {
    table[SECURITY_SETTINGS_ID := EnsuredRow(table, chance)]
  }

  // ---------------------------------------------------------------- authentication settings

  datatype AuthArgs = AuthArgs(
    enabled: bool, username: string, current: string, newPassword: string, confirmation: string, confirmDisable: bool)

  datatype AuthError =
    | UsernameRequired | UsernameColon | UsernameControl | UsernamePattern
    | CurrentRequired | CurrentIncorrect | ConfirmDisable | Mismatch | TooShort

  predicate IsUserChar(c: char) {
    'A' <= c <= 'Z' || 'a' <= c <= 'z' || '0' <= c <= '9' || c == '.' || c == '_' || c == '-'
  }

  predicate IsUsername(s: string) {
    1 <= |s| <= 64 && forall c | c in s :: IsUserChar(c)
  }

  function When<T>(condition: bool, x: T): seq<T> {
    if condition then [x] else []
  }

  function ValidateUsername(username: string): seq<AuthError> {
    if username == "" then [UsernameRequired]
    else
      When(':' in username, UsernameColon)
      + When(exists c :: c in username && (c as int < 32 || c as int == 127), UsernameControl)
      + When(!IsUsername(username), UsernamePattern)
  }

  /** The pattern alone decides. */
  lemma UsernameValid(username: string)
    ensures ValidateUsername(username) == [] <==> IsUsername(username)
  {
  }

  ghost predicate Sensitive(s: Settings, a: AuthArgs) {
    Strip(a.username) != s.username || a.newPassword != "" || (s.authEnabled && !a.enabled)
  }

  /** What an authentication update has to satisfy. */
  ghost predicate AuthPermitted(s: Settings, a: AuthArgs) {
    && IsUsername(Strip(a.username))
    && (Sensitive(s, a) ==> a.current != "" && VerifyPassword(a.current, s.passwordHash))
    && (s.authEnabled && !a.enabled ==> a.confirmDisable)
    && (a.newPassword != "" ==> a.newPassword == a.confirmation && |a.newPassword| >= MIN_PASSWORD_LENGTH)
  }

  // A-Z, a-z, 0-9, dot, underscore and hyphen, by their codes.
  ghost predicate PlainName(s: string) {
    1 <= |s| <= 64
    && forall i | 0 <= i < |s| ::
         var n := s[i] as int;
         65 <= n <= 90 || 97 <= n <= 122 || 48 <= n <= 57 || n == 46 || n == 95 || n == 45
  }

  lemma NamesArePlain(s: string)
    ensures IsUsername(s) <==> PlainName(s)
  {
    if IsUsername(s) {
      forall i | 0 <= i < |s| ensures IsUserChar(s[i]) { assert s[i] in s; }
    }
  }

  /** When an authentication update is refused with this error. */
  ghost predicate Complaint(s: Settings, a: AuthArgs, e: AuthError) {
    var name := Strip(a.username);
    match e
    case UsernameRequired => name == ""
    case UsernameColon => ':' in name
    case UsernameControl => ControlIn(name)
    case UsernamePattern => name != "" && !PlainName(name)
    case CurrentRequired => Sensitive(s, a) && a.current == ""
    case CurrentIncorrect => Sensitive(s, a) && a.current != "" && s.passwordHash != Hashed(a.current, HashSalt(s))
    case ConfirmDisable => s.authEnabled && !a.enabled && !a.confirmDisable
    case Mismatch => a.newPassword != "" && a.newPassword != a.confirmation
    case TooShort => 0 < |a.newPassword| < 12
  }

  ghost predicate ControlIn(s: string) {
    exists i :: 0 <= i < |s| && (s[i] as int < 32 || s[i] as int == 127)
  }

  ghost function HashSalt(s: Settings): nat {
    if s.passwordHash.Hashed? then s.passwordHash.salt else 0
  }

  lemma NameComplaints(s: Settings, a: AuthArgs, e: AuthError)
    ensures e in ValidateUsername(Strip(a.username)) <==>
      e in {UsernameRequired, UsernameColon, UsernameControl, UsernamePattern} && Complaint(s, a, e)
  {
    hide Strip, IsUsername, PlainName;
    NamesArePlain(Strip(a.username));
    ControlByPlace(Strip(a.username));
  }

  lemma ControlByPlace(s: string)
    ensures ControlIn(s) <==> exists c :: c in s && (c as int < 32 || c as int == 127)
  {
    if i :| 0 <= i < |s| && (s[i] as int < 32 || s[i] as int == 127) {
      assert s[i] in s;
    }
  }

  function AfterAuth(s: Settings, a: AuthArgs, salt: nat): Settings {
    var renamed := s.(username := Strip(a.username), authEnabled := a.enabled);
    if a.newPassword != "" then renamed.(passwordHash := Hashed(a.newPassword, salt), defaultCredentials := false)
      else renamed
  }

  // ---------------------------------------------------------------- network and host settings

  datatype CidrArgs = CidrArgs(enabled: bool, text: string, clientIp: string, allowLockout: bool, confirmation: string)

  datatype HostArgs = HostArgs(enabled: bool, text: string, requestHost: string, allowLockout: bool,
    confirmation: string)

  datatype UpdateError = BadEntry(e: Allowlist.LineError) | EmptyAllowlist | WouldLockOut

  predicate Overridden(allowLockout: bool, confirmation: string) {
    allowLockout && Strip(confirmation) == LOCKOUT_CONFIRMATION_PHRASE
  }

  function CidrList(ip: Cidr.IpText, text: string): seq<string> {
    Allowlist.Normalized(Cidr.Accept(ip), Cidr.MAX_CIDR_ENTRIES, text)
  }

  function HostList(ips: Hosts.HostIps, text: string): seq<string> {
    Allowlist.Normalized(Hosts.Accept(ips), Hosts.MAX_HOST_ENTRIES, text)
  }

  ghost predicate CidrPermitted(ip: Cidr.IpText, a: CidrArgs) {
    && Allowlist.Errors(Cidr.Accept(ip), Cidr.MAX_CIDR_ENTRIES, a.text) == []
    && (a.enabled ==>
        && CidrList(ip, a.text) != []
        && (Cidr.ClientAllowed(ip, a.clientIp, CidrList(ip, a.text)) || Overridden(a.allowLockout, a.confirmation)))
  }

  ghost predicate HostsPermitted(ips: Hosts.HostIps, a: HostArgs) {
    && Allowlist.Errors(Hosts.Accept(ips), Hosts.MAX_HOST_ENTRIES, a.text) == []
    && (a.enabled ==>
        || Hosts.HostAllowed(ips, Hosts.NormalizeRequestHost(a.requestHost), true, HostList(ips, a.text))
        || Overridden(a.allowLockout, a.confirmation))
  }

  function AfterCidr(s: Settings, ip: Cidr.IpText, a: CidrArgs): Settings {
    s.(cidrEnabled := a.enabled, cidrs := Items(CidrList(ip, a.text)))
  }

  function AfterHosts(s: Settings, ips: Hosts.HostIps, a: HostArgs): Settings {
    s.(hostEnabled := a.enabled, hosts := Items(HostList(ips, a.text)))
  }

  // ---------------------------------------------------------------- the service

  class SecurityService {
    var table: Table
    var cache: Option<Policy>

    constructor (table: Table)
      ensures this.table == table && Valid()
    {
      this.table, cache := table, None;
    }

    /** The cache is empty or the policy of the stored row. */
    ghost predicate Valid()
      reads this
    {
      cache.Some? ==> SECURITY_SETTINGS_ID in table && cache.value == RowToPolicy(table[SECURITY_SETTINGS_ID])
    }

    method InvalidateCache()
      modifies this`cache
      ensures cache == None
    {
      cache := None;
    }

    method BindCache(settings: Settings)
      modifies this`cache
      ensures cache == Some(RowToPolicy(settings))
    {
      cache := Some(RowToPolicy(settings));
    }

    method EnsureSecuritySettings(chance: Chance) returns (row: Settings)
      modifies this
      ensures table == Ensured(old(table), chance) && row == table[SECURITY_SETTINGS_ID]
      ensures Valid() && cache.Some?
    {
      if SECURITY_SETTINGS_ID in table {
        row := table[SECURITY_SETTINGS_ID];
        BindCache(row);
        return;
      }
      row := DefaultRow(chance.salt);
      if chance.rival.Some? {
        // the unique id makes this insertion fail
        table := table[SECURITY_SETTINGS_ID := DefaultRow(chance.rival.value)];
        row := table[SECURITY_SETTINGS_ID];
      } else {
        table := table[SECURITY_SETTINGS_ID := row];
      }
      BindCache(row);
    }

    method GetSecurityPolicy(useCache: bool, chance: Chance) returns (policy: Policy)
      requires Valid()
      modifies this
      ensures Valid() && table == Ensured(old(table), chance)
      ensures policy == RowToPolicy(EnsuredRow(old(table), chance))
    {
      if useCache && cache.Some? {
        return cache.value;
      }
      var row := EnsureSecuritySettings(chance);
      BindCache(row);
      return cache.value;
    }

    // commit, then drop and rebuild the cache
    method Save(settings: Settings)
      modifies this
      ensures table == old(table)[SECURITY_SETTINGS_ID := settings] && Valid()
    {
      table := table[SECURITY_SETTINGS_ID := settings];
      InvalidateCache();
      BindCache(settings);
    }

    method UpdateAuthentication(a: AuthArgs, chance: Chance) returns (ok: bool, errors: seq<AuthError>)
      modifies this
      ensures Valid()
      ensures ok <==> AuthPermitted(EnsuredRow(old(table), chance), a)
      ensures ok <==> errors == []
      ensures forall e :: e in errors <==> Complaint(EnsuredRow(old(table), chance), a, e)
      ensures table == Ensured(old(table), chance)[SECURITY_SETTINGS_ID :=
        if ok then AfterAuth(EnsuredRow(old(table), chance), a, chance.newSalt) else EnsuredRow(old(table), chance)]
    {
      hide Valid, Strip, ValidateUsername, PlainName, IsUsername, ControlIn, RowToPolicy, EnsuredRow, When;
      var settings := EnsureSecuritySettings(chance);
      var username := Strip(a.username);
      errors := ValidateUsername(username);
      UsernameValid(username);
      forall e ensures e in errors <==>
        e in {UsernameRequired, UsernameColon, UsernameControl, UsernamePattern} && Complaint(settings, a, e)
      {
        NameComplaints(settings, a, e);
      }
      var changingUsername := username != settings.username;
      var changingPassword := a.newPassword != "";
      var disabling := settings.authEnabled && !a.enabled;
      if changingUsername || changingPassword || disabling {
        if a.current == "" {
          errors := errors + [CurrentRequired];
        } else if !VerifyPassword(a.current, settings.passwordHash) {
          errors := errors + [CurrentIncorrect];
        }
      }
      if disabling && !a.confirmDisable {
        errors := errors + [ConfirmDisable];
      }
      if changingPassword {
        if a.newPassword != a.confirmation {
          errors := errors + [Mismatch];
        }
        if |a.newPassword| < MIN_PASSWORD_LENGTH {
          errors := errors + [TooShort];
        }
      }
      if errors != [] {
        return false, errors;
      }
      settings := settings.(username := username, authEnabled := a.enabled);
      if changingPassword {
        settings := settings.(passwordHash := Hashed(a.newPassword, chance.newSalt));
        settings := settings.(defaultCredentials := false);
      }
      Save(settings);
      return true, [];
    }

    method UpdateCidr(ip: Cidr.IpText, a: CidrArgs, chance: Chance)
      returns (ok: bool, normalized: seq<string>, errors: seq<UpdateError>)
      modifies this
      ensures Valid()
      ensures normalized == CidrList(ip, a.text)
      ensures ok <==> CidrPermitted(ip, a)
      ensures ok <==> errors == []
      ensures var bad := Allowlist.Errors(Cidr.Accept(ip), Cidr.MAX_CIDR_ENTRIES, a.text);
        if bad != [] then |errors| == |bad| && forall i | 0 <= i < |bad| :: errors[i] == BadEntry(bad[i])
        else if a.enabled && normalized == [] then errors == [EmptyAllowlist]
        else !ok ==> errors == [WouldLockOut]
      ensures table == Ensured(old(table), chance)[SECURITY_SETTINGS_ID :=
        if ok then AfterCidr(EnsuredRow(old(table), chance), ip, a) else EnsuredRow(old(table), chance)]
    {
      hide Valid, Cidr.ClientAllowed, Cidr.Accept, Allowlist.Normalized, Allowlist.Errors, Strip, RowToPolicy,
        EnsuredRow;
      var settings := EnsureSecuritySettings(chance);
      var bad: seq<Allowlist.LineError>;
      normalized, bad := Cidr.ParseAndNormalizeCidrs(ip, a.text);
      errors := seq(|bad|, i requires 0 <= i < |bad| => BadEntry(bad[i]));
      if a.enabled && normalized == [] && errors == [] {
        errors := errors + [EmptyAllowlist];
      }
      if errors != [] {
        return false, normalized, errors;
      }
      var willRemain := true;
      if a.enabled {
        willRemain := Cidr.ClientIpAllowed(ip, a.clientIp, normalized);
      }
      if a.enabled && !willRemain {
        if !a.allowLockout || Strip(a.confirmation) != LOCKOUT_CONFIRMATION_PHRASE {
          return false, normalized, [WouldLockOut];
        }
      }
      settings := settings.(cidrEnabled := a.enabled);
      settings := settings.(cidrs := Items(normalized));
      Save(settings);
      return true, normalized, [];
    }

    method UpdateHosts(ips: Hosts.HostIps, a: HostArgs, chance: Chance)
      returns (ok: bool, normalized: seq<string>, errors: seq<UpdateError>)
      modifies this
      ensures Valid()
      ensures normalized == HostList(ips, a.text)
      ensures ok <==> HostsPermitted(ips, a)
      ensures ok <==> errors == []
      ensures var bad := Allowlist.Errors(Hosts.Accept(ips), Hosts.MAX_HOST_ENTRIES, a.text);
        if bad != [] then |errors| == |bad| && forall i | 0 <= i < |bad| :: errors[i] == BadEntry(bad[i])
        else !ok ==> errors == [WouldLockOut]
      ensures table == Ensured(old(table), chance)[SECURITY_SETTINGS_ID :=
        if ok then AfterHosts(EnsuredRow(old(table), chance), ips, a) else EnsuredRow(old(table), chance)]
    {
      hide Valid, Hosts.HostAllowed, Hosts.NormalizeRequestHost, Hosts.Accept, Allowlist.Normalized,
        Allowlist.Errors, Strip, RowToPolicy;
      var settings := EnsureSecuritySettings(chance);
      var bad: seq<Allowlist.LineError>;
      normalized, bad := Hosts.ParseAndNormalizeHosts(ips, a.text);
      if bad != [] {
        return false, normalized, seq(|bad|, i requires 0 <= i < |bad| => BadEntry(bad[i]));
      }
      var effective := Hosts.NormalizeRequestHost(a.requestHost);
      var willRemain := true;
      if a.enabled {
        willRemain := Hosts.HostAllowed(ips, effective, true, normalized);
      }
      if a.enabled && !willRemain {
        if !a.allowLockout || Strip(a.confirmation) != LOCKOUT_CONFIRMATION_PHRASE {
          return false, normalized, [WouldLockOut];
        }
      }
      settings := settings.(hostEnabled := a.enabled);
      settings := settings.(hosts := Items(normalized));
      Save(settings);
      return true, normalized, [];
    }
  }

  // ---------------------------------------------------------------- any sequence of calls

  datatype Call =
    | ReadPolicy(useCache: bool, chance: Chance)
    | SaveAuth(auth: AuthArgs, chance: Chance)
    | SaveCidr(cidr: CidrArgs, chance: Chance)
    | SaveHosts(host: HostArgs, chance: Chance)
    | Restart(chance: Chance)

  // What a call makes of the table; there is no cache here.
  ghost function TableAfterCall(ip: Cidr.IpText, ips: Hosts.HostIps, table: Table, call: Call): Table {
    var row := EnsuredRow(table, call.chance);
    match call
    case ReadPolicy(_, _) => Ensured(table, call.chance)
    case SaveAuth(a, chance) => Ensured(table, chance)[SECURITY_SETTINGS_ID := if AuthPermitted(row, a)
      then AfterAuth(row, a, chance.newSalt) else row]
    case SaveCidr(a, chance) => Ensured(table, chance)[SECURITY_SETTINGS_ID := if CidrPermitted(ip, a)
      then AfterCidr(row, ip, a) else row]
    case SaveHosts(a, chance) => Ensured(table, chance)[SECURITY_SETTINGS_ID := if HostsPermitted(ips, a)
      then AfterHosts(row, ips, a) else row]
    case Restart(_) => table
  }

  ghost function TableAfter(ip: Cidr.IpText, ips: Hosts.HostIps, table: Table, calls: seq<Call>, n: nat): Table
    requires n <= |calls|
  {
    if n == 0 then table else TableAfterCall(ip, ips, TableAfter(ip, ips, table, calls, n - 1), calls[n - 1])
  }

  method RunCall(service: SecurityService, ip: Cidr.IpText, ips: Hosts.HostIps, call: Call)
      returns (answer: Option<Policy>)
    requires service.Valid()
    modifies service
    ensures service.Valid() && service.table == TableAfterCall(ip, ips, old(service.table), call)
    ensures call.ReadPolicy? ==> answer == Some(RowToPolicy(EnsuredRow(old(service.table), call.chance)))
  {
    hide AuthPermitted, CidrPermitted, HostsPermitted, EnsuredRow, RowToPolicy, AfterAuth, AfterCidr, AfterHosts;
    answer := None;
    match call {
      case ReadPolicy(useCache, chance) =>
        var policy := service.GetSecurityPolicy(useCache, chance);
        answer := Some(policy);
      case SaveAuth(a, chance) =>
        var _, _ := service.UpdateAuthentication(a, chance);
      case SaveCidr(a, chance) =>
        var _, _, _ := service.UpdateCidr(ip, a, chance);
      case SaveHosts(a, chance) =>
        var _, _, _ := service.UpdateHosts(ips, a, chance);
      case Restart(_) =>
        service.InvalidateCache();
    }
  }

  /**
    The cache cannot be observed: over any sequence of calls, from any table, every policy that
    is read, with or without the cache, is the policy of the row stored at that moment.
   */
  method RunCalls(ip: Cidr.IpText, ips: Hosts.HostIps, table: Table, calls: seq<Call>)
      returns (answers: seq<Option<Policy>>)
    ensures |answers| == |calls|
    ensures forall i | 0 <= i < |calls| && calls[i].ReadPolicy? ::
      answers[i] == Some(RowToPolicy(EnsuredRow(TableAfter(ip, ips, table, calls, i), calls[i].chance)))
  {
    hide TableAfterCall, EnsuredRow, RowToPolicy;
    var service := new SecurityService(table);
    answers := [];
    for i := 0 to |calls|
      invariant fresh(service) && service.Valid() && service.table == TableAfter(ip, ips, table, calls, i)
      invariant |answers| == i && forall k | 0 <= k < i && calls[k].ReadPolicy? ::
        answers[k] == Some(RowToPolicy(EnsuredRow(TableAfter(ip, ips, table, calls, k), calls[k].chance)))
    {
      var answer := RunCall(service, ip, ips, calls[i]);
      answers := answers + [answer];
    }
  }

  /** What the service keeps true of its row. */
  ghost predicate SoundRow(row: Settings) {
    && (row.cidrEnabled ==> ListOf(row.cidrs) != [])
    && (row.defaultCredentials <==> VerifyPassword(DEFAULT_PASSWORD, row.passwordHash))
    && Distinct(ListOf(row.cidrs)) && |ListOf(row.cidrs)| <= Cidr.MAX_CIDR_ENTRIES
    && Distinct(ListOf(row.hosts)) && |ListOf(row.hosts)| <= Hosts.MAX_HOST_ENTRIES
  }

  /**
    In every reachable state: at most the one row, created once; a CIDR restriction only with a
    non-empty allowlist; the default-credentials flag set exactly while the default password works.
   */
  lemma {:induction false} RunsKeepSound(ip: Cidr.IpText, ips: Hosts.HostIps, table: Table, calls: seq<Call>, n: nat)
    requires n <= |calls| && table.Keys <= {SECURITY_SETTINGS_ID}
    requires forall id | id in table :: SoundRow(table[id])
    ensures var after := TableAfter(ip, ips, table, calls, n);
      after.Keys <= {SECURITY_SETTINGS_ID} && table.Keys <= after.Keys && forall id | id in after :: SoundRow(after[id])
  {
    hide TableAfterCall, SoundRow;
    if n > 0 {
      RunsKeepSound(ip, ips, table, calls, n - 1);
      CallKeepsSound(ip, ips, TableAfter(ip, ips, table, calls, n - 1), calls[n - 1]);
    }
  }

  lemma CallKeepsSound(ip: Cidr.IpText, ips: Hosts.HostIps, table: Table, call: Call)
    requires forall id | id in table :: SoundRow(table[id])
    ensures var after := TableAfterCall(ip, ips, table, call);
      table.Keys <= after.Keys <= table.Keys + {SECURITY_SETTINGS_ID} && forall id | id in after :: SoundRow(after[id])
  {
    hide Strip, Allowlist.Normalized, Allowlist.Errors, Cidr.ClientAllowed, Hosts.HostAllowed;
    var row := EnsuredRow(table, call.chance);
    assert SoundRow(row);
    match call {
      case ReadPolicy(_, _) =>
      case Restart(_) =>
      case SaveAuth(a, chance) =>
      case SaveCidr(a, chance) => Allowlist.NormalizedMeaning(Cidr.Accept(ip), Cidr.MAX_CIDR_ENTRIES, a.text);
      case SaveHosts(a, chance) => Allowlist.NormalizedMeaning(Hosts.Accept(ips), Hosts.MAX_HOST_ENTRIES, a.text);
    }
  }

  // ---------------------------------------------------------------- the rows before and after

  /**
    Another name, another password hash, or authentication turned off: only with the current
    password, and the last only with a confirmation. A new password is confirmed, has at least 12
    characters and ends the default credentials. The network settings stay.
   */
  lemma ChangesAreAuthorised(s: Settings, a: AuthArgs, salt: nat)
    requires AuthPermitted(s, a)
    ensures var after := AfterAuth(s, a, salt);
      && (after.username != s.username || after.passwordHash != s.passwordHash
            || (s.authEnabled && !after.authEnabled) ==>
            a.current != "" && s.passwordHash.Hashed? && s.passwordHash.password == a.current)
      && (s.authEnabled && !after.authEnabled ==> a.confirmDisable)
      && after.username == Strip(a.username) && PlainName(after.username) && after.authEnabled == a.enabled
      && (if a.newPassword == ""
          then after.passwordHash == s.passwordHash && after.defaultCredentials == s.defaultCredentials
          else after.passwordHash == Hashed(a.newPassword, salt) && !after.defaultCredentials
               && a.confirmation == a.newPassword && |a.newPassword| >= 12)
      && after.cidrEnabled == s.cidrEnabled && after.cidrs == s.cidrs && after.hostEnabled == s.hostEnabled
      && after.hosts == s.hosts
  {
    hide Strip;
    NamesArePlain(Strip(a.username));
  }

  /** Who knows the current password and confirms is not refused. */
  lemma AuthorisedChangesPass(s: Settings, a: AuthArgs)
    requires PlainName(Strip(a.username)) && a.current != ""
    requires s.passwordHash.Hashed? && s.passwordHash.password == a.current && a.confirmDisable
    requires a.newPassword == "" || (a.newPassword == a.confirmation && |a.newPassword| >= 12)
    ensures AuthPermitted(s, a)
  {
    hide Strip;
    NamesArePlain(Strip(a.username));
  }

  /** Saving without changing name, password or protection needs no password. */
  lemma UnchangedNeedsNoPassword(s: Settings, a: AuthArgs)
    requires PlainName(Strip(a.username)) && Strip(a.username) == s.username && a.newPassword == ""
    requires s.authEnabled ==> a.enabled
    ensures AuthPermitted(s, a)
  {
    hide Strip;
    NamesArePlain(Strip(a.username));
  }

  /** A new installation asks for a login with the default credentials, and restricts hosts only. */
  lemma FirstRow(table: Table, chance: Chance)
    requires SECURITY_SETTINGS_ID !in table
    ensures var row := EnsuredRow(table, chance);
      && row.authEnabled && row.username == "admin" && row.passwordHash.Hashed? && row.passwordHash.password == "admin"
      && row.defaultCredentials && !row.cidrEnabled && row.hostEnabled && row.cidrs == Items([])
      && row.hosts == Items([])
  {
  }

  /** The network updates write their own two columns; at most 100 and 50 entries; the exact phrase overrides. */
  lemma NetworkUpdates(s: Settings, ip: Cidr.IpText, c: CidrArgs, ips: Hosts.HostIps, h: HostArgs)
    ensures CidrPermitted(ip, c) ==> AfterCidr(s, ip, c).cidrs.Items? && |AfterCidr(s, ip, c).cidrs.items| <= 100
    ensures AfterCidr(s, ip, c) == s.(cidrEnabled := c.enabled, cidrs := AfterCidr(s, ip, c).cidrs)
    ensures CidrPermitted(ip, c) ==> |Allowlist.EntriesOf(c.text)| <= 100
    ensures HostsPermitted(ips, h) ==> AfterHosts(s, ips, h).hosts.Items? && |AfterHosts(s, ips, h).hosts.items| <= 50
    ensures AfterHosts(s, ips, h) == s.(hostEnabled := h.enabled, hosts := AfterHosts(s, ips, h).hosts)
    ensures HostsPermitted(ips, h) ==> |Allowlist.EntriesOf(h.text)| <= 50
    ensures Overridden(c.allowLockout, c.confirmation) <==> c.allowLockout && Strip(c.confirmation) == "ALLOW LOCKOUT"
  {
    hide Allowlist.Normalized, Allowlist.Errors, Allowlist.EntriesOf, Strip, Cidr.ClientAllowed, Hosts.HostAllowed;
    Allowlist.NormalizedMeaning(Cidr.Accept(ip), Cidr.MAX_CIDR_ENTRIES, c.text);
    Allowlist.NormalizedMeaning(Hosts.Accept(ips), Hosts.MAX_HOST_ENTRIES, h.text);
  }
}
