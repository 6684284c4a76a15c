/** What the server does with its key and its channel table before it serves (app/main.py, lifespan). */
module Startup {
  import opened Base
  import opened Text
  import opened Secrets
  import opened KeyStore
  import opened CryptoMigrate
  import Rekey

  datatype Faults = Faults(readKey: bool, write: WriteFault, replace: bool, unlinkTemp: bool, commit: bool,
    unlinkBackup: bool)

  ghost predicate NoFaults(f: Faults) {
    !f.readKey && f.write.NoFault? && !f.replace && !f.commit
  }

  // The key in force, when `generated` is used in case there is none.
  function KeyInForce(c: Crypto, env: string, files: map<Path, string>, generated: string): Option<Key> {
    match Resolve(c, env, FileAt(files, Active))
    case Some(k) => Some(k)
    case None => c.parse(generated)
  }

  // The key files as startup may leave them: a key file only appears where there was no key.
  ghost predicate Initialised(c: Crypto, env: string, generated: string, before: map<Path, string>,
      files: map<Path, string>) {
    && (forall p :: p in {Active, Temp} || FileAt(files, p) == FileAt(before, p))
    && (|| FileAt(files, Active) == FileAt(before, Active)
        || (Resolve(c, env, FileAt(before, Active)) == None && FileAt(files, Active) == Some(KeyFileText(generated))))
  }

  /** Readers of the key file see the old content or the complete new one, never a part of it. */
  method WriteKeyFileAtomic(m: Machine, key: string, f: Faults) returns (ok: bool)
    modifies m`files, m`seen
    ensures ok == (f.write.NoFault? && !f.replace)
    ensures ok ==> FileAt(m.files, Active) == Some(KeyFileText(key)) && SameBut(m.files, old(m.files), {Active, Temp})
    ensures !ok ==> SameBut(m.files, old(m.files), {Temp})
    ensures Temp in m.files ==> f.unlinkTemp || (f.write.Refused? && Temp in old(m.files))
    ensures old(m.seen) <= m.seen
    ensures forall s | s in m.seen && s !in old(m.seen) ::
      && s.rows == m.rows && SameBut(s.files, old(m.files), {Active, Temp})
      && FileAt(s.files, Active) in {FileAt(old(m.files), Active), Some(KeyFileText(key))}
  {
    hide KeyFileText;
    ok := m.Write(Temp, KeyFileText(key), f.write);
    if ok {
      ok := m.Replace(Temp, Active, f.replace);
    }
    if Temp in m.files {
      var _ := m.Unlink(Temp, f.unlinkTemp);
    }
  }

  // init_app_secrets(allow_generate=True)
  method InitAppSecrets(m: Machine, c: Crypto, env: string, generated: string, f: Faults) returns (ok: bool)
    requires IsKeyText(c, generated)
    modifies m`files, m`seen, m`fernet
    ensures ok ==> m.fernet.Some?
    ensures ok ==> m.fernet == KeyInForce(c, env, old(m.files), generated) == Resolve(c, env, FileAt(m.files, Active))
    ensures NoFaults(f) ==> ok
    ensures old(m.seen) <= m.seen && Initialised(c, env, generated, old(m.files), m.files)
    ensures forall s | s in m.seen ::
      s in old(m.seen) || (s.rows == m.rows && Initialised(c, env, generated, old(m.files), s.files))
  {
    hide IsUsableEnvSecret, KeyOfFile, KeyFileText;
    if f.readKey && !IsUsableEnvSecret(env) && Active in m.files {
      return false;
    }
    m.fernet := Resolve(c, env, FileAt(m.files, Active));
    if m.fernet.None? {
      KeyFileRoundTrip(c, generated);
      ok := WriteKeyFileAtomic(m, generated, f);
      m.fernet := c.parse(generated);
      return ok;
    }
    return true;
  }

  // Migration and, when that has succeeded, the end of the backup.
  method MigrateAndCleanUp(m: Machine, f: Faults) returns (ok: bool)
    requires m.view == m.rows && m.fernet.Some?
    modifies m`view, m`rows, m`files, m`seen
    ensures m.view == m.rows
    ensures ok ==> Readable(old(m.rows), m.fernet.value) && m.rows == Migrated(old(m.rows), m.fernet.value)
    ensures Readable(old(m.rows), m.fernet.value) && !f.commit ==> ok
    ensures !ok ==> m.Now() == old(m.Now())
    ensures ok ==> m.files == if f.unlinkBackup then old(m.files) else old(m.files) - {Backup}
    ensures old(m.seen) <= m.seen <= old(m.seen) + {Durable(old(m.files), m.rows), m.Now()}
  {
    hide Migrated, Readable, PlaintextIds, CountsFit;
    var migrated := MigrateNotificationSecrets(m, f.commit);
    m.Rollback();
    ok := migrated.Ok?;
    if ok && Backup in m.files {
      var _ := m.Unlink(Backup, f.unlinkBackup);
    }
  }

  /**
    All rows encrypted under the key in force with their plaintexts, or no row changed. The
    backup of a rotated key goes only in the first case, and only after the rows are committed.
   */
  method Start(m: Machine, c: Crypto, env: string, generated: string, f: Faults) returns (started: bool)
    requires m.view == m.rows && IsKeyText(c, generated)
    modifies m
    ensures started ==> m.fernet.Some?
    ensures started ==>
      m.fernet == KeyInForce(c, env, old(m.files), generated) == Resolve(c, env, FileAt(m.files, Active))
    ensures started ==> m.rows == Migrated(old(m.rows), m.fernet.value) && Readable(old(m.rows), m.fernet.value)
    ensures !started ==> m.rows == old(m.rows) && Initialised(c, env, generated, old(m.files), m.files)
    ensures started ==> (Backup in m.files <==> Backup in old(m.files) && f.unlinkBackup)
    ensures NoFaults(f) ==> (started <==> Readable(old(m.rows), KeyInForce(c, env, old(m.files), generated).value))
    ensures old(m.seen) <= m.seen
    ensures forall s | s in m.seen :: s in old(m.seen) || StartState(c, env, generated, old(m.Now()), s)
    ensures StartState(c, env, generated, old(m.Now()), m.Now())
  {
    hide IsUsableEnvSecret, KeyOfFile, KeyFileText, Resolve, Migrated, Readable, IsKeyText, Initialised, StartState;
    started := InitAppSecrets(m, c, env, generated, f);
    StartStates(c, env, generated, old(m.Now()), m.files, m.rows);
    forall s | s in m.seen && s !in old(m.seen) ensures StartState(c, env, generated, old(m.Now()), s) {
      StartStates(c, env, generated, old(m.Now()), s.files, s.rows);
    }
    if started {
      ghost var files := m.files;
      started := MigrateAndCleanUp(m, f);
      StartStates(c, env, generated, old(m.Now()), files, m.rows);
    }
  }

  // Initialised files with the rows as they were, or with all rows migrated.
  lemma StartStates(c: Crypto, env: string, generated: string, before: Durable, files: map<Path, string>, rows: Rows)
    requires Initialised(c, env, generated, before.files, files)
    ensures Backup in files <==> Backup in before.files
    ensures rows == before.rows ==> StartState(c, env, generated, before, Durable(files, rows))
    ensures var key := KeyInForce(c, env, before.files, generated);
      key.Some? && key == Resolve(c, env, FileAt(files, Active)) && Readable(before.rows, key.value)
        && rows == Migrated(before.rows, key.value) ==>
      && StartState(c, env, generated, before, Durable(files, rows))
      && StartState(c, env, generated, before, Durable(files - {Backup}, rows))
      && Resolve(c, env, FileAt(files - {Backup}, Active)) == key
  {
    hide Resolve, Readable, Migrated;
    assert FileAt(files, Staging) == FileAt(before.files, Staging);
    assert FileAt(files, Backup) == FileAt(before.files, Backup);
  }

  /** Every state of a start: the rows as they were, or all migrated; the backup kept at least until then. */
  ghost predicate StartState(c: Crypto, env: string, generated: string, before: Durable, s: Durable) {
    || (s.rows == before.rows && Initialised(c, env, generated, before.files, s.files))
    || (var key := KeyInForce(c, env, before.files, generated);
        && key.Some? && key == Resolve(c, env, FileAt(s.files, Active))
        && Readable(before.rows, key.value) && s.rows == Migrated(before.rows, key.value)
        && FileAt(s.files, Backup) in {None, FileAt(before.files, Backup)}
          && FileAt(s.files, Staging) == FileAt(before.files, Staging))
  }

  /** A backup that is gone was gone before, or every row is readable under the key in force. */
  lemma BackupOutlivesDoubt(c: Crypto, env: string, generated: string, before: Durable, s: Durable)
    requires StartState(c, env, generated, before, s) && FileAt(s.files, Backup) != FileAt(before.files, Backup)
    ensures var key := Resolve(c, env, FileAt(s.files, Active));
      key.Some? && Readable(s.rows, key.value) && AllEncrypted(s.rows)
        && SamePlaintexts(s.rows, key.value, before.rows, key.value)
  {
    hide IsUsableEnvSecret, KeyOfFile, KeyFileText, Resolve;
    MigrationSettles(before.rows, KeyInForce(c, env, before.files, generated).value);
  }

  // Plaintexts do not depend on which of two keys reads all rows.
  lemma TwoKeysAgree(rows: Rows, a: Key, b: Key)
    requires Readable(rows, a) && Readable(rows, b)
    ensures SamePlaintexts(rows, a, rows, b)
  {
    forall id | id in rows ensures DecryptConfig(rows[id], a) == DecryptConfig(rows[id], b) {
      assert DecryptConfig(rows[id], a).Ok? && DecryptConfig(rows[id], b).Ok?;
    }
  }

  lemma SamePlaintextsTwice(a: Rows, ka: Key, b: Rows, kb: Key, c: Rows, kc: Key)
    requires SamePlaintexts(a, ka, b, kb) && SamePlaintexts(b, kb, c, kc)
    ensures SamePlaintexts(a, ka, c, kc)
  {
  }

  /**
    A rekeying interrupted at any point, then a start with any environment secret: the server
    comes up with every plaintext of the rows before the rekeying, or changes no row.
   */
  method RestartAfterCrash(ghost run: Rekey.Run, crashed: Durable, c: Crypto, env: string, generated: string, f: Faults)
    returns (started: bool, m: Machine)
    requires run.c == c && IsKeyText(c, run.generated) && IsKeyText(c, generated)
    requires Rekey.OldKey(run).Some? && Readable(run.start.rows, Rekey.OldKey(run).value)
    requires Rekey.Reached(run, crashed)
    ensures started ==> m.fernet.Some? && AllEncrypted(m.rows)
    ensures started ==> SamePlaintexts(m.rows, m.fernet.value, run.start.rows, Rekey.OldKey(run).value)
    ensures !started ==> m.rows == crashed.rows && SameBut(m.files, crashed.files, {Active, Temp})
  {
    hide IsUsableEnvSecret, KeyOfFile, KeyFileText, Resolve, Migrated, Readable, IsKeyText, Rekey.Rotating,
      Rekey.OldKey, Rekey.NewKey, SamePlaintexts, AllEncrypted, Rekeyed;
    m := new Machine(crashed.files, crashed.rows);
    started := Start(m, c, env, generated, f);
    if started {
      RestartedPlaintexts(run, crashed, m.fernet.value);
    }
  }

  lemma RestartedPlaintexts(run: Rekey.Run, crashed: Durable, key: Key)
    requires Rekey.OldKey(run).Some? && Readable(run.start.rows, Rekey.OldKey(run).value) && Rekey.Reached(run, crashed)
    requires Readable(crashed.rows, key)
    ensures AllEncrypted(Migrated(crashed.rows, key))
    ensures SamePlaintexts(Migrated(crashed.rows, key), key, run.start.rows, Rekey.OldKey(run).value)
  {
    hide Rekey.Rotating, Rekey.OldKey, Rekey.NewKey, Readable, AllEncrypted, SamePlaintexts, Migrated, Rekeyed;
    var oldKey := Rekey.OldKey(run).value;
    MigrationSettles(crashed.rows, key);
    if Rekey.Moved(run, crashed.rows) {
      var newKey := Rekey.NewKey(run).value;
      RekeyingMoves(run.start.rows, oldKey, newKey, newKey);
      TwoKeysAgree(crashed.rows, key, newKey);
      SamePlaintextsTwice(crashed.rows, key, crashed.rows, newKey, run.start.rows, oldKey);
    } else {
      TwoKeysAgree(crashed.rows, key, oldKey);
    }
    SamePlaintextsTwice(Migrated(crashed.rows, key), key, crashed.rows, key, run.start.rows, oldKey);
  }

  /**
    After a rekeying that exited with 0, an undisturbed start comes up whenever the environment
    holds the new secret, or no usable secret in case the new key is in the key file.
   */
  lemma SuccessStarts(run: Rekey.Run, f: Rekey.Faults, end: Durable, env: string, another: string)
    requires Rekey.OutcomeFits(run, f, Rekey.Exit(0), end)
    requires IsUsableEnvSecret(env) || IsUsableEnvSecret(Rekey.NewSecret(run.a)) ==>
      Strip(env) == Rekey.NewSecret(run.a)
    ensures var key := KeyInForce(run.c, env, end.files, another);
      key.Some? && Readable(end.rows, key.value)
      && SamePlaintexts(end.rows, key.value, run.start.rows, Rekey.OldKey(run).value)
  {
    hide KeyOfFile, Strip, IsUsableEnvSecret, Rekey.Moved, Rekey.IsActivated, Rekey.OldKey, DecryptConfig,
      Rekey.Rotating;
    var secret := Rekey.NewSecret(run.a);
    StripStrips(Rekey.Or(run.a.newKey, run.a.envNew));
    StripFixes(secret);
    UsableMeansLong(env);
    UsableMeansLong(secret);
    Rekey.EmptyIsUnusable();
    assert Resolve(run.c, env, FileAt(end.files, Active))
      == Resolve(run.c, Rekey.EnvAfter(run.a), FileAt(end.files, Active));
  }
}
