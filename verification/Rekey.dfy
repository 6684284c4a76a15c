/**
  The rekey command (app/cli.py), step by step, with any step failing and a crash possible
  between any two steps or inside a file write.
 */
module Rekey {
  import opened Base
  import opened Text
  import opened Secrets
  import opened KeyStore
  import opened CryptoMigrate

  // Command line arguments and the two environment variables ("" when unset).
  datatype Args = Args(oldKey: string, newKey: string, generateFile: bool, envOld: string, envNew: string)

  // Which operations raise, and how far the file writes get.
  datatype Faults = Faults(
    stage: WriteFault, readKey: bool, query: bool, commit: bool, unstage: bool,
    copy: WriteFault, replace: bool, readAgain: bool, queryAgain: bool, unbackup: bool)

  // The exit status, or an exception that leaves the command.
  datatype Outcome = Exit(code: nat) | Raised

  function Or(a: string, b: string): string {
    if a != "" then a else b
  }

  function OldSecret(a: Args): string {
    Strip(Or(a.oldKey, a.envOld))
  }

  function NewSecret(a: Args): string {
    Strip(Or(a.newKey, a.envNew))
  }

  predicate Rotating(a: Args) {
    !IsUsableEnvSecret(NewSecret(a)) && a.generateFile
  }

  // The key the rows are to be moved to.
  function SelectedKey(c: Crypto, a: Args, files: map<Path, string>, generated: string): Option<Key> {
    if Rotating(a) then c.parse(generated)
    else if IsUsableEnvSecret(NewSecret(a)) then Some(c.digest(NewSecret(a)))
    else Resolve(c, Or(NewSecret(a), a.envNew), FileAt(files, Active))
  }

  // What init_app_secrets is called with after the rekeying.
  function EnvAfter(a: Args): string {
    if IsUsableEnvSecret(NewSecret(a)) then NewSecret(a) else ""
  }

  // ---------------------------------------------------------------- the states of a run

  datatype Run = Run(c: Crypto, a: Args, generated: string, start: Durable)

  ghost function OldKey(run: Run): Option<Key> {
    KeyFromSecretString(run.c, OldSecret(run.a))
  }

  ghost function NewKey(run: Run): Option<Key> {
    SelectedKey(run.c, run.a, run.start.files, run.generated)
  }

  /** Nothing has happened yet, except to the staging file of a run that generates a key. */
  ghost predicate Untouched(run: Run, s: Durable) {
    && s.rows == run.start.rows
    && SameBut(s.files, run.start.files, if Rotating(run.a) then {Staging} else {})
  }

  ghost predicate Moved(run: Run, rows: Rows) {
    && OldKey(run).Some? && NewKey(run).Some?
    && Readable(run.start.rows, OldKey(run).value)
    && rows == Rekeyed(run.start.rows, OldKey(run).value, NewKey(run).value)
  }

  /** The new key staged, the active key file as it was. */
  ghost predicate AwaitsActivation(run: Run, files: map<Path, string>) {
    && FileAt(files, Staging) == Some(KeyFileText(run.generated))
    && SameBut(files, run.start.files, {Staging, Backup})
  }

  /** The new key active, the old key file (if there was one) backed up or dropped. */
  ghost predicate IsActivated(run: Run, files: map<Path, string>) {
    && FileAt(files, Active) == Some(KeyFileText(run.generated))
    && FileAt(files, Staging) == None
    && FileAt(files, Backup) in {None, FileAt(run.start.files, Backup), FileAt(run.start.files, Active)}
    && SameBut(files, run.start.files, {Active, Staging, Backup})
  }

  ghost predicate Settled(run: Run, files: map<Path, string>) {
    if Rotating(run.a) then AwaitsActivation(run, files) || IsActivated(run, files)
    else SameBut(files, run.start.files, {})
  }

  ghost predicate Reached(run: Run, s: Durable) {
    Untouched(run, s) || (Moved(run, s.rows) && Settled(run, s.files))
  }

  // ---------------------------------------------------------------- the steps

  method ReEncrypt(m: Machine, oldKey: Key, newKey: Key, staged: bool, f: Faults) returns (ok: bool)
    requires m.view == m.rows
    modifies m`view, m`rows, m`files, m`seen
    ensures m.view == m.rows
    ensures ok <==> Readable(old(m.rows), oldKey) && !f.query && !f.commit
    ensures ok ==> m.rows == Rekeyed(old(m.rows), oldKey, newKey) && m.files == old(m.files)
    ensures !ok ==> m.rows == old(m.rows)
    ensures !ok ==> m.files == if staged && !f.unstage then old(m.files) - {Staging} else old(m.files)
    ensures old(m.seen) <= m.seen <= old(m.seen) + {old(m.Now()), m.Now()}
  {
    hide Readable, Rekeyed;
    var verified := VerifyChannelsWithFernet(m, oldKey, f.query);
    ok := verified.Ok?;
    if ok {
      var rekeyed := RekeyNotificationSecrets(m, oldKey, newKey, f.commit);
      ok := rekeyed.Ok?;
    }
    if !ok {
      m.Rollback();
      if staged && Staging in m.files {
        var _ := m.Unlink(Staging, f.unstage);
      }
    }
  }

  // _activate_staged_key; None is an OSError, Some(true) says that there is a backup.
  method ActivateStagedKey(m: Machine, f: Faults, ghost run: Run) returns (r: Option<bool>)
    requires AwaitsActivation(run, m.files) && SameBut(m.files, run.start.files, {Staging})
    modifies m`files, m`seen
    ensures r.None? <==> f.replace || (Active in run.start.files && !f.copy.NoFault?)
    ensures r.None? ==> AwaitsActivation(run, m.files)
    ensures r.Some? ==> IsActivated(run, m.files) && r.value == (Active in run.start.files)
    ensures r == Some(true) ==> FileAt(m.files, Backup) == FileAt(run.start.files, Active)
    ensures old(m.seen) <= m.seen
    ensures forall s | s in m.seen ::
      s in old(m.seen) || (s.rows == m.rows && (AwaitsActivation(run, s.files) || IsActivated(run, s.files)))
  {
    var bak := false;
    assert FileAt(m.files, Active) == FileAt(run.start.files, Active);
    if Active in m.files {
      var copied := m.Write(Backup, m.files[Active], f.copy);
      if !copied {
        return None;
      }
      bak := true;
    }
    var replaced := m.Replace(Staging, Active, f.replace);
    if !replaced {
      return None;
    }
    return Some(bak);
  }

  // reset, init_app_secrets, and a second verification in a session of its own
  method Confirm(m: Machine, c: Crypto, a: Args, f: Faults) returns (ok: bool)
    modifies m`view, m`fernet
    ensures m.view == m.rows
    ensures ok ==> m.fernet == Resolve(c, EnvAfter(a), FileAt(m.files, Active))
    ensures ok ==> m.fernet.Some? && Readable(m.rows, m.fernet.value)
    ensures !f.readAgain && !f.queryAgain && !ok ==>
      var k := Resolve(c, EnvAfter(a), FileAt(m.files, Active)); k == None || !Readable(m.rows, k.value)
  {
    hide IsUsableEnvSecret, KeyOfFile, Strip, DecryptConfig, Readable;
    m.fernet := None;
    m.Rollback();
    if f.readAgain && !IsUsableEnvSecret(EnvAfter(a)) && Active in m.files {
      return false;
    }
    m.fernet := Resolve(c, EnvAfter(a), FileAt(m.files, Active));
    if m.fernet.None? {
      return false;
    }
    var verified := VerifyChannelsWithFernet(m, m.fernet.value, f.queryAgain);
    return verified.Ok?;
  }

  // ---------------------------------------------------------------- the command

  /** What each exit status tells the operator. */
  ghost predicate OutcomeFits(run: Run, f: Faults, out: Outcome, end: Durable) {
    match out
    case Raised => Untouched(run, end)
    case Exit(code) =>
      if code == 2 then end == run.start
      else if code == 1 then
        || (Untouched(run, end) && (Rotating(run.a) && !f.unstage ==> Staging !in end.files))
        || (&& Moved(run, end.rows) && Settled(run, end.files)
            && (Rotating(run.a) && Active in run.start.files && Staging !in end.files ==>
                  FileAt(end.files, Backup) == FileAt(run.start.files, Active)))
      else
        && code == 0 && Moved(run, end.rows) && Settled(run, end.files)
        && (Rotating(run.a) ==> IsActivated(run, end.files))
        && (Rotating(run.a) && Active in run.start.files && !f.unbackup ==> Backup !in end.files)
        && var key := Resolve(run.c, EnvAfter(run.a), FileAt(end.files, Active));
           key.Some? && SamePlaintexts(end.rows, key.value, run.start.rows, OldKey(run).value)
  }

  ghost predicate NoFaults(f: Faults) {
    f.stage.NoFault? && !f.readKey && !f.query && !f.commit && f.copy.NoFault? && !f.replace && !f.readAgain
      && !f.queryAgain
  }

  /** The inputs for which an undisturbed run succeeds. */
  ghost predicate Acceptable(run: Run) {
    && OldKey(run).Some? && Readable(run.start.rows, OldKey(run).value) && NewKey(run).Some?
    && (|| Rotating(run.a) || IsUsableEnvSecret(NewSecret(run.a))
        || (var k := Resolve(run.c, "", FileAt(run.start.files, Active));
            k == NewKey(run) || (k.Some? && run.start.rows == map[])))
  }

  // No old secret was given, or no new key can be found.
  ghost predicate KeysMissing(run: Run) {
    OldKey(run).None? || NewKey(run).None?
  }

  // The state in which the staging file has just been opened for writing.
  ghost function Truncated(run: Run): Durable {
    Durable(run.start.files[Staging := ""], run.start.rows)
  }

  ghost predicate RunStates(run: Run, f: Faults, seen: set<Durable>) {
    && run.start in seen
    && (forall s | s in seen :: Reached(run, s))
    && (Rotating(run.a) && OldKey(run).Some? && !f.stage.Refused? ==> Truncated(run) in seen)
  }

  // Choose the new key, staging it when it has just been generated; Err is the end of the command.
  method ChooseKey(m: Machine, c: Crypto, a: Args, generated: string, f: Faults) returns (r: Result<Key, Outcome>)
    requires IsKeyText(c, generated)
    modifies m`files, m`seen
    ensures r.Ok? ==> SelectedKey(c, a, old(m.files), generated) == Some(r.value)
    ensures r.Ok? && Rotating(a) ==> m.files == old(m.files)[Staging := KeyFileText(generated)]
    ensures !Rotating(a) ==> m.files == old(m.files) && m.seen == old(m.seen)
    ensures r.Err? ==> r.error in {Raised, Exit(2)}
    ensures r == Err(Exit(2)) ==> !Rotating(a) && SelectedKey(c, a, old(m.files), generated) == None
    ensures f.stage.NoFault? && !f.readKey ==> r != Err(Raised)
    ensures SameBut(m.files, old(m.files), {Staging}) && old(m.seen) <= m.seen
    ensures forall s | s in m.seen ::
      s in old(m.seen) || (s.rows == m.rows && SameBut(s.files, old(m.files), {Staging}))
    ensures Rotating(a) && !f.stage.Refused? ==> Durable(old(m.files)[Staging := ""], m.rows) in m.seen
  {
    hide IsUsableEnvSecret, KeyOfFile, Strip, KeyFileText;
    var newEnv := NewSecret(a);
    if IsUsableEnvSecret(newEnv) {
      return Ok(c.digest(newEnv));
    } else if a.generateFile {
      var ok := m.Write(Staging, KeyFileText(generated), f.stage);
      return if ok then Ok(c.parse(generated).value) else Err(Raised);
    } else {
      if f.readKey && Active in m.files {
        return Err(Raised);
      }
      var k := Resolve(c, Or(newEnv, a.envNew), FileAt(m.files, Active));
      return if k.Some? then Ok(k.value) else Err(Exit(2));
    }
  }

  method CmdRekey(m: Machine, c: Crypto, a: Args, generated: string, f: Faults) returns (out: Outcome)
    requires m.view == m.rows && m.seen == {m.Now()} && IsKeyText(c, generated)
    modifies m
    ensures RunStates(Run(c, a, generated, old(m.Now())), f, m.seen)
    ensures OutcomeFits(Run(c, a, generated, old(m.Now())), f, out, m.Now())
    ensures NoFaults(f) ==> (out == Exit(0) <==> Acceptable(Run(c, a, generated, old(m.Now()))))
    ensures NoFaults(f) ==> (out == Exit(2) <==> KeysMissing(Run(c, a, generated, old(m.Now()))))
  {
    hide IsUsableEnvSecret, KeyOfFile, Strip, Readable, Rekeyed, DecryptConfig, KeyFileText, KeyFromSecretString,
      SelectedKey, Resolve, IsKeyText, SamePlaintexts, Settled;
    ghost var run := Run(c, a, generated, m.Now());
    var oldKey := KeyFromSecretString(c, OldSecret(a));
    if oldKey.None? {
      return Exit(2);
    }
    var newKey := ChooseKey(m, c, a, generated, f);
    if newKey.Err? {
      return newKey.error;
    }
    var rotate := Rotating(a);
    var done := ReEncrypt(m, oldKey.value, newKey.value, rotate, f);
    if !done {
      return Exit(1);
    }
    JustCommitted(run, m.files);
    out := Activate(m, c, a, f, run);
  }

  lemma JustCommitted(run: Run, files: map<Path, string>)
    requires if Rotating(run.a) then files == run.start.files[Staging := KeyFileText(run.generated)]
      else files == run.start.files
    ensures Settled(run, files)
  {
    hide Rotating, KeyFileText;
  }

  // Everything after the commit.
  method Activate(m: Machine, c: Crypto, a: Args, f: Faults, ghost run: Run) returns (out: Outcome)
    requires run.c == c && run.a == a && Moved(run, m.rows) && IsKeyText(c, run.generated)
    requires if Rotating(a) then m.files == run.start.files[Staging := KeyFileText(run.generated)]
      else m.files == run.start.files
    modifies m`files, m`seen, m`view, m`fernet
    ensures old(m.seen) <= m.seen
    ensures forall s | s in m.seen :: s in old(m.seen) || Reached(run, s)
    ensures Settled(run, m.files) && out in {Exit(0), Exit(1)}
    ensures OutcomeFits(run, f, out, m.Now())
    ensures NoFaults(f) ==> (out == Exit(0) <==> Acceptable(run))
  {
    hide IsUsableEnvSecret, KeyOfFile, Strip, Readable, Rekeyed, DecryptConfig, KeyFileText, KeyFromSecretString,
      SelectedKey, Resolve, IsKeyText, SamePlaintexts, Acceptable, Moved;
    var bak := false;
    if Rotating(a) {
      var activated := ActivateStagedKey(m, f, run);
      if activated.None? {
        return Exit(1);
      }
      bak := activated.value;
    }
    var confirmed := Confirm(m, c, a, f);
    KeyAfterwards(run, m.Now());
    if !confirmed {
      return Exit(1);
    }
    if bak && Backup in m.files {
      var _ := m.Unlink(Backup, f.unbackup);
    }
    return Exit(0);
  }

  lemma KeyAfterwards(run: Run, end: Durable)
    requires Moved(run, end.rows) && IsKeyText(run.c, run.generated)
    requires if Rotating(run.a) then IsActivated(run, end.files) else SameBut(end.files, run.start.files, {})
    ensures var key := Resolve(run.c, EnvAfter(run.a), FileAt(end.files, Active));
      && ((key.Some? && Readable(end.rows, key.value)) <==> Acceptable(run))
      && (key.Some? && Readable(end.rows, key.value) ==>
        SamePlaintexts(end.rows, key.value, run.start.rows, OldKey(run).value))
  {
    hide IsUsableEnvSecret, KeyOfFile, Strip, DecryptConfig, KeyFileText, KeyFromSecretString;
    var key := Resolve(run.c, EnvAfter(run.a), FileAt(end.files, Active));
    var oldKey, newKey := OldKey(run).value, NewKey(run).value;
    if key.Some? {
      RekeyingMoves(run.start.rows, oldKey, newKey, key.value);
    }
    KeyFileRoundTrip(run.c, run.generated);
    StripStrips(Or(run.a.newKey, run.a.envNew));
    StripFixes(NewSecret(run.a));
    EmptyIsUnusable();
  }

  lemma EmptyIsUnusable()
    ensures !IsUsableEnvSecret("")
  {
    assert Strip("") == "";
  }

  // ---------------------------------------------------------------- what a crash can do

  ghost function KeyAt(c: Crypto, files: map<Path, string>, path: Path): Option<Key> {
    if path in files then KeyOfFile(c, files[path]) else None
  }

  lemma GeneratedKey(run: Run)
    requires Rotating(run.a) && IsKeyText(run.c, run.generated)
    ensures NewKey(run).Some? && NewKey(run) == run.c.parse(run.generated)
      == KeyOfFile(run.c, KeyFileText(run.generated))
  {
    hide KeyOfFile, KeyFileText, IsUsableEnvSecret, Strip;
    KeyFileRoundTrip(run.c, run.generated);
  }

  /**
    In every state of a run that generates a key, either all rows are as before and so are the
    active key file and its backup, or all rows have kept their plaintexts under the new key,
    which is staged or active.
   */
  lemma CrashSafety(run: Run, s: Durable)
    requires Rotating(run.a) && IsKeyText(run.c, run.generated) && Reached(run, s)
    ensures
      || (s.rows == run.start.rows && SameBut(s.files, run.start.files, {Staging}))
      || (&& OldKey(run).Some? && Readable(run.start.rows, OldKey(run).value) && AllEncrypted(s.rows)
          && SamePlaintexts(s.rows, run.c.parse(run.generated).value, run.start.rows, OldKey(run).value)
          && run.c.parse(run.generated) in {KeyAt(run.c, s.files, Staging), KeyAt(run.c, s.files, Active)})
  {
    hide Rotating, OldKey, NewKey, KeyOfFile, KeyFileText, IsKeyText, Readable, DecryptConfig, Rekeyed, AllEncrypted,
      SamePlaintexts;
    GeneratedKey(run);
    if Moved(run, s.rows) {
      RekeyingMoves(run.start.rows, OldKey(run).value, NewKey(run).value, NewKey(run).value);
    }
  }

  /** A run without key generation never touches a key file, and moves all rows or none. */
  lemma CrashSafetyWithoutFile(run: Run, s: Durable)
    requires !Rotating(run.a) && Reached(run, s)
    ensures SameBut(s.files, run.start.files, {})
    ensures
      || s.rows == run.start.rows
      || (&& OldKey(run).Some? && NewKey(run).Some?
          && SamePlaintexts(s.rows, NewKey(run).value, run.start.rows, OldKey(run).value))
  {
    hide KeyOfFile, KeyFileText, KeyFromSecretString, IsUsableEnvSecret, SelectedKey;
    if Moved(run, s.rows) {
      RekeyingMoves(run.start.rows, OldKey(run).value, NewKey(run).value, NewKey(run).value);
    }
  }

  /** The key of this row is known to the operator or in one of these files. */
  ghost predicate Openable(c: Crypto, operator: Key, files: map<Path, string>, among: set<Path>, row: Stored) {
    row.Encrypted? && row.token.Sealed? ==>
      row.token.key == operator || exists p :: p in among && KeyAt(c, files, p) == Some(row.token.key)
  }

  ghost predicate Recoverable(c: Crypto, operator: Key, s: Durable, among: set<Path>) {
    forall id | id in s.rows :: Openable(c, operator, s.files, among, s.rows[id])
  }

  const ALL_KEYS: set<Path> := {Active, Staging, Backup}

  lemma MovedIsRecoverable(run: Run, s: Durable)
    requires Rotating(run.a) && IsKeyText(run.c, run.generated) && Moved(run, s.rows) && Settled(run, s.files)
    ensures Recoverable(run.c, OldKey(run).value, s, ALL_KEYS)
  {
    hide Rotating, OldKey, NewKey, KeyOfFile, KeyFileText, IsKeyText;
    GeneratedKey(run);
    var p := if AwaitsActivation(run, s.files) then Staging else Active;
    assert KeyAt(run.c, s.files, p) == NewKey(run);
    forall id | id in s.rows ensures s.rows[id]
      == EncryptConfig(DecryptConfig(run.start.rows[id], OldKey(run).value).value, NewKey(run).value) {
      assert DecryptConfig(run.start.rows[id], OldKey(run).value).Ok?;
    }
  }

  lemma UntouchedIsRecoverable(run: Run, s: Durable, operator: Key)
    requires Rotating(run.a) && Untouched(run, s) && Recoverable(run.c, operator, run.start, {Active, Backup})
    ensures Recoverable(run.c, operator, s, ALL_KEYS)
  {
    hide KeyOfFile, IsUsableEnvSecret;
    forall id | id in s.rows ensures Openable(run.c, operator, s.files, ALL_KEYS, s.rows[id]) {
      assert Openable(run.c, operator, run.start.files, {Active, Backup}, s.rows[id]);
      assert FileAt(s.files, Active) == FileAt(run.start.files, Active);
      assert FileAt(s.files, Backup) == FileAt(run.start.files, Backup);
    }
  }

  lemma TruncationLosesStaged(run: Run, operator: Key)
    requires Recoverable(run.c, operator, Truncated(run), ALL_KEYS)
    ensures Recoverable(run.c, operator, run.start, {Active, Backup})
  {
    hide KeyOfFile;
    var s := Truncated(run);
    assert KeyOfFile(run.c, "") == None by { NothingInEmptyFile(run.c); }
    forall id | id in run.start.rows
      ensures Openable(run.c, operator, run.start.files, {Active, Backup}, run.start.rows[id]) {
      assert Openable(run.c, operator, s.files, ALL_KEYS, s.rows[id]);
      assert KeyAt(run.c, s.files, Staging) == None;
      assert KeyAt(run.c, s.files, Active) == KeyAt(run.c, run.start.files, Active);
      assert KeyAt(run.c, s.files, Backup) == KeyAt(run.c, run.start.files, Backup);
    }
  }

  lemma NothingInEmptyFile(c: Crypto)
    ensures KeyOfFile(c, "") == None
  {
    assert Strip("") == "";
  }

  /**
    Every row stays openable in every state of a run that generates a key exactly when, at the
    start, no row depends on the staging file: the run overwrites it before it verifies anything.
   */
  lemma RecoverableThroughout(run: Run, f: Faults, seen: set<Durable>)
    requires Rotating(run.a) && IsKeyText(run.c, run.generated) && OldKey(run).Some?
    requires RunStates(run, f, seen) && !f.stage.Refused?
    ensures (forall s | s in seen :: Recoverable(run.c, OldKey(run).value, s, ALL_KEYS))
       <==> Recoverable(run.c, OldKey(run).value, run.start, {Active, Backup})
  {
    hide KeyOfFile, KeyFromSecretString, IsUsableEnvSecret, IsKeyText, Recoverable, Untouched, Moved, Settled;
    var operator := OldKey(run).value;
    if Recoverable(run.c, operator, run.start, {Active, Backup}) {
      forall s | s in seen ensures Recoverable(run.c, operator, s, ALL_KEYS) {
        assert Reached(run, s);
        if Untouched(run, s) {
          UntouchedIsRecoverable(run, s, operator);
        } else {
          MovedIsRecoverable(run, s);
        }
      }
    } else if Recoverable(run.c, operator, Truncated(run), ALL_KEYS) {
      TruncationLosesStaged(run, operator);
    }
  }

  /** Without a staging file at the start the condition is simply that the start is recoverable. */
  lemma NoStagingFile(run: Run, operator: Key)
    requires Staging !in run.start.files
    ensures Recoverable(run.c, operator, run.start, ALL_KEYS)
      <==> Recoverable(run.c, operator, run.start, {Active, Backup})
  {
    hide KeyOfFile;
    forall id | id in run.start.rows
      ensures Openable(run.c, operator, run.start.files, ALL_KEYS, run.start.rows[id])
         <==> Openable(run.c, operator, run.start.files, {Active, Backup}, run.start.rows[id])
    {
      assert KeyAt(run.c, run.start.files, Staging) == None;
    }
  }

  /** So a run that starts without a staging file never loses a key that was there at its start. */
  lemma RecoverableWithoutStaging(run: Run, f: Faults, seen: set<Durable>)
    requires Rotating(run.a) && IsKeyText(run.c, run.generated) && OldKey(run).Some?
    requires RunStates(run, f, seen) && !f.stage.Refused? && Staging !in run.start.files
    ensures (forall s | s in seen :: Recoverable(run.c, OldKey(run).value, s, ALL_KEYS))
       <==> Recoverable(run.c, OldKey(run).value, run.start, ALL_KEYS)
  {
    hide KeyOfFile, KeyFromSecretString, IsUsableEnvSecret, IsKeyText, Recoverable, RunStates, OldKey;
    NoStagingFile(run, OldKey(run).value);
    RecoverableThroughout(run, f, seen);
  }

  /**
    Retrying after a failed activation is such a case: the first run left the only copy of the
    key of all rows in the staging file, and the second run, given the same old secret, loses it.
   */
  lemma RetryLosesStagedKey(first: Run, retry: Run)
    requires Rotating(first.a) && Rotating(retry.a) && IsKeyText(first.c, first.generated)
    requires Moved(first, retry.start.rows) && AwaitsActivation(first, retry.start.files) && first.start.rows != map[]
    requires retry.c == first.c && OldKey(retry) == OldKey(first)
    requires NewKey(first) !in {OldKey(first), KeyAt(first.c, retry.start.files, Active),
      KeyAt(first.c, retry.start.files, Backup)}
    ensures !Readable(retry.start.rows, OldKey(retry).value)
    ensures Reached(retry, Truncated(retry)) && !Recoverable(retry.c, OldKey(retry).value, Truncated(retry), ALL_KEYS)
  {
    hide Rotating, OldKey, NewKey, KeyOfFile, KeyFileText, IsKeyText, Recoverable;
    var operator := OldKey(first).value;
    RekeyingMoves(first.start.rows, operator, NewKey(first).value, operator);
    if Recoverable(retry.c, operator, Truncated(retry), ALL_KEYS) {
      TruncationLosesStaged(retry, operator);
      NotInTheFiles(first, retry.start.files);
    }
    assert Untouched(retry, Truncated(retry)) by { assert Rotating(retry.a); }
  }

  lemma NotInTheFiles(run: Run, files: map<Path, string>)
    requires OldKey(run).Some? && NewKey(run).Some? && Readable(run.start.rows, OldKey(run).value)
      && run.start.rows != map[]
    requires NewKey(run) !in {OldKey(run), KeyAt(run.c, files, Active), KeyAt(run.c, files, Backup)}
    ensures !Recoverable(run.c, OldKey(run).value,
      Durable(files, Rekeyed(run.start.rows, OldKey(run).value, NewKey(run).value)), {Active, Backup})
  {
    hide KeyOfFile, OldKey, NewKey;
    var id :| id in run.start.rows;
    assert DecryptConfig(run.start.rows[id], OldKey(run).value).Ok?;
    var row := RekeyedRow(run.start.rows[id], OldKey(run).value, NewKey(run).value);
    assert !Openable(run.c, OldKey(run).value, files, {Active, Backup}, row);
  }

  /**
    The command reads the rows of a server that runs on an environment secret exactly when the
    secret is not the text of some other Fernet key.
   */
  lemma OldEnvSecretWorks(c: Crypto, secret: string, rows: Rows, file: Option<string>)
    requires IsUsableEnvSecret(secret) && KeyFromSecretString(c, secret).Some?
    requires rows != map[] && AllEncrypted(rows) && Readable(rows, Resolve(c, secret, file).value)
    ensures Readable(rows, KeyFromSecretString(c, secret).value)
       <==> c.parse(Strip(secret)) in {None, Some(c.digest(Strip(secret)))}
  {
    hide IsUsableEnvSecret, KeyFromSecretString, Strip;
    EnvSecretAgreement(c, secret, file);
    var id :| id in rows;
    assert rows[id].Encrypted? && DecryptConfig(rows[id], Resolve(c, secret, file).value).Ok?;
  }

  // ---------------------------------------------------------------- from the arguments themselves

  lemma {:induction false} StripTwice(s: string)
    ensures Strip(Strip(s)) == Strip(s)
  {
    hide Strip;
    StripStrips(s);
    StripFixes(Strip(s));
  }

  // An argument goes before its environment variable.
  function Given(argument: string, variable: string): string {
    if argument == "" then variable else argument
  }

  /** The old key is that of the argument, or of the variable when the argument is empty. */
  lemma OldKeyIsGiven(run: Run)
    ensures OldKey(run) == KeyFromSecretString(run.c, Given(run.a.oldKey, run.a.envOld))
  {
    hide Strip;
    StripTwice(Given(run.a.oldKey, run.a.envOld));
  }

  /**
    The new key: a given secret of 16 characters goes before a generated key, and that before the
    key file. A blank argument leaves room for the variable when no key is generated.
   */
  lemma NewKeyIsGiven(run: Run)
    ensures var secret, variable := Strip(Given(run.a.newKey, run.a.envNew)), Strip(run.a.envNew);
      && (|secret| >= 16 ==> !Rotating(run.a) && NewKey(run) == Some(run.c.digest(secret)))
      && (|secret| < 16 && run.a.generateFile ==> Rotating(run.a) && NewKey(run) == run.c.parse(run.generated))
      && (|secret| < 16 && !run.a.generateFile ==>
            && !Rotating(run.a)
            && NewKey(run) ==
                 if secret == "" && |variable| >= 16 then Some(run.c.digest(variable))
                 else if Active in run.start.files then KeyOfFile(run.c, run.start.files[Active])
                 else None)
  {
    hide Strip, KeyOfFile, IsUsableEnvSecret;
    var given := Given(run.a.newKey, run.a.envNew);
    assert given == Or(run.a.newKey, run.a.envNew);
    StripTwice(given);
    UsableMeansLong(Strip(given));
    UsableMeansLong(run.a.envNew);
  }

  /** The rows after a rekeying: each object that the old key reads, sealed under the new key. */
  ghost predicate Resealed(after: Rows, newKey: Key, before: Rows, oldKey: Key) {
    after.Keys == before.Keys
    && forall id, doc | id in before && HasForm(before[id], oldKey, doc) ::
      after[id] == Encrypted(Sealed(newKey, Object(doc)))
  }

  /**
    An undisturbed run that generates a key succeeds exactly when the given old secret reads every
    row; then every object is sealed under the generated key, which is in the key file.
   */
  lemma GeneratingRun(run: Run, f: Faults, out: Outcome, end: Durable)
    requires IsKeyText(run.c, run.generated) && OutcomeFits(run, f, out, end) && (out == Exit(0) <==> Acceptable(run))
    requires run.a.generateFile && |Strip(Given(run.a.newKey, run.a.envNew))| < 16
    ensures var oldKey := KeyFromSecretString(run.c, Given(run.a.oldKey, run.a.envOld));
      && (out == Exit(0) <==> oldKey.Some? && Readable(run.start.rows, oldKey.value))
      && (out == Exit(0) ==>
            && Resealed(end.rows, run.c.parse(run.generated).value, run.start.rows, oldKey.value)
            && FileAt(end.files, Active) == Some(run.generated + "\n"))
  {
    hide Strip, KeyOfFile, IsUsableEnvSecret, KeyFromSecretString, Rotating, OldKey, NewKey, HasForm, Readable, Given;
    OldKeyIsGiven(run);
    NewKeyIsGiven(run);
    if out == Exit(0) {
      RekeyedForms(run.start.rows, OldKey(run).value, NewKey(run).value);
      GeneratedText(run);
    }
  }

  lemma GeneratedText(run: Run)
    requires IsKeyText(run.c, run.generated)
    ensures KeyFileText(run.generated) == run.generated + "\n"
  {
    var last := run.generated[|run.generated| - 1];
    assert last in run.generated;
  }

  /** With a given new secret of 16 characters the rows move to its digest, and no file changes. */
  lemma SecretRun(run: Run, f: Faults, out: Outcome, end: Durable)
    requires IsKeyText(run.c, run.generated) && OutcomeFits(run, f, out, end) && (out == Exit(0) <==> Acceptable(run))
    requires |Strip(Given(run.a.newKey, run.a.envNew))| >= 16
    ensures var oldKey := KeyFromSecretString(run.c, Given(run.a.oldKey, run.a.envOld));
      && (out == Exit(0) <==> oldKey.Some? && Readable(run.start.rows, oldKey.value))
      && (out == Exit(0) ==>
            && Resealed(end.rows, run.c.digest(Strip(Given(run.a.newKey, run.a.envNew))), run.start.rows, oldKey.value)
            && SameBut(end.files, run.start.files, {}))
  {
    hide Strip, KeyOfFile, KeyFromSecretString, Rotating, OldKey, NewKey, HasForm, Readable, Given, IsUsableEnvSecret;
    OldKeyIsGiven(run);
    NewKeyIsGiven(run);
    GivenIsUsable(run);
    if out == Exit(0) {
      RekeyedForms(run.start.rows, OldKey(run).value, NewKey(run).value);
    }
  }

  lemma GivenIsUsable(run: Run)
    requires |Strip(Given(run.a.newKey, run.a.envNew))| >= 16
    ensures IsUsableEnvSecret(NewSecret(run.a))
  {
    hide Strip, IsUsableEnvSecret;
    StripTwice(Given(run.a.newKey, run.a.envNew));
    UsableMeansLong(NewSecret(run.a));
  }
}
