/** Migrating, verifying and rekeying the channel table (app/security/crypto_migrate.py). */
module CryptoMigrate {
  import opened Base
  import opened Secrets
  import opened KeyStore

  datatype Counts = Counts(migrated: nat, alreadyEncrypted: nat, total: nat)

  // A row after migration; one that cannot be parsed stays as it is.
  function MigratedRow(value: Stored, key: Key): Stored {
    if value.Encrypted? then value
    else
      match DecryptConfig(value, key)
      case Ok(doc) => EncryptConfig(doc, key)
      case Err(_) => value
  }

  ghost function Migrated(rows: Rows, key: Key): Rows {
    map id | id in rows :: MigratedRow(rows[id], key)
  }

  function RekeyedRow(value: Stored, oldKey: Key, newKey: Key): Stored {
    match DecryptConfig(value, oldKey)
    case Ok(doc) => EncryptConfig(doc, newKey)
    case Err(_) => value
  }

  ghost function Rekeyed(rows: Rows, oldKey: Key, newKey: Key): Rows {
    map id | id in rows :: RekeyedRow(rows[id], oldKey, newKey)
  }

  ghost function PlaintextIds(rows: Rows): set<nat> {
    set id | id in rows && !rows[id].Encrypted?
  }

  /** What migration does to a readable table: all encrypted, nothing lost, nothing left to do. */
  lemma MigrationSettles(rows: Rows, key: Key)
    requires Readable(rows, key)
    ensures AllEncrypted(Migrated(rows, key))
    ensures SamePlaintexts(Migrated(rows, key), key, rows, key)
    ensures PlaintextIds(Migrated(rows, key)) == {}
    ensures Migrated(Migrated(rows, key), key) == Migrated(rows, key)
  {
  }

  /** What rekeying does to a table that the old key reads: every row is under the new key alone. */
  lemma RekeyingMoves(rows: Rows, oldKey: Key, newKey: Key, other: Key)
    requires Readable(rows, oldKey)
    ensures AllEncrypted(Rekeyed(rows, oldKey, newKey))
    ensures SamePlaintexts(Rekeyed(rows, oldKey, newKey), newKey, rows, oldKey)
    ensures Readable(Rekeyed(rows, oldKey, newKey), other) <==> other == newKey || rows == map[]
  {
    hide DecryptConfig;
    var after := Rekeyed(rows, oldKey, newKey);
    forall id | id in rows
      ensures after[id].Encrypted? && DecryptConfig(after[id], newKey) == DecryptConfig(rows[id], oldKey)
      ensures DecryptConfig(after[id], other).Ok? <==> other == newKey
    {
      var doc := DecryptConfig(rows[id], oldKey).value;
      EncryptThenDecrypt(doc, newKey, newKey);
      EncryptThenDecrypt(doc, newKey, other);
    }
    if rows != map[] {
      var id :| id in rows;
      assert Readable(after, other) ==> DecryptConfig(after[id], other).Ok?;
    }
  }

  ghost predicate CountsFit(c: Counts, rows: Rows) {
    c.migrated == |PlaintextIds(rows)| && c.total == |rows| && c.migrated + c.alreadyEncrypted == c.total
  }

  // The loop over the channels: it changes the session's view only.
  method MigrateRows(m: Machine, key: Key) returns (r: Result<Counts, SecretError>)
    modifies m`view
    ensures r.Ok? <==> Readable(old(m.view), key)
    ensures r.Ok? ==> m.view == Migrated(old(m.view), key) && CountsFit(r.value, old(m.view))
    ensures r.Err? ==> r.error == SecretKeyError
  {
    var channels := m.view;
    var migrated, already: nat := 0, 0;
    var todo := channels.Keys;
    ghost var plain: set<nat> := {};
    while todo != {}
      invariant todo <= channels.Keys
      invariant m.view == map id | id in channels :: if id in todo then channels[id] else MigratedRow(channels[id], key)
      invariant forall id | id in channels && id !in todo :: DecryptConfig(channels[id], key).Ok?
      invariant forall id :: id in plain <==> id in channels && id !in todo && !channels[id].Encrypted?
      invariant migrated == |plain| && migrated + already == |channels.Keys| - |todo|
      decreases |todo|
    {
      var id :| id in todo;
      var value := channels[id];
      todo := todo - {id};
      if value.Encrypted? {
        if !CanDecrypt(value, key) {
          return Err(SecretKeyError);
        }
        already := already + 1;
      } else {
        var plaintext := DecryptConfig(value, key);
        if plaintext.Err? {
          return Err(SecretKeyError);
        }
        m.view := m.view[id := EncryptConfig(plaintext.value, key)];
        migrated := migrated + 1;
        plain := plain + {id};
      }
    }
    assert m.view == Migrated(channels, key);
    assert plain == PlaintextIds(channels);
    return Ok(Counts(migrated, already, |channels|));
  }

  /** All or nothing: every row migrated and committed, or an error and the old table. */
  method MigrateNotificationSecrets(m: Machine, commitFails: bool) returns (r: Result<Counts, SecretError>)
    requires m.view == m.rows && m.fernet.Some?
    modifies m`view, m`rows, m`seen
    ensures r.Ok? <==> Readable(old(m.rows), m.fernet.value) && !(commitFails && PlaintextIds(old(m.rows)) != {})
    ensures r.Ok? ==> m.rows == Migrated(old(m.rows), m.fernet.value) && CountsFit(r.value, old(m.rows))
    ensures r.Err? ==> m.rows == old(m.rows) && r.error != ValueError
    ensures m.seen <= old(m.seen) + {m.Now()} && old(m.seen) <= m.seen
  {
    r := MigrateRows(m, m.fernet.value);
    if r.Ok? {
      if r.value.migrated > 0 {
        var ok := m.Commit(commitFails);
        if !ok {
          return Err(DatabaseError);
        }
      } else {
        NothingToMigrate(m.rows, m.fernet.value);
      }
    }
  }

  lemma NothingToMigrate(rows: Rows, key: Key)
    requires PlaintextIds(rows) == {}
    ensures Migrated(rows, key) == rows
  {
    forall id | id in rows ensures rows[id].Encrypted? {
      assert id !in PlaintextIds(rows);
    }
  }

  method VerifyChannelsWithFernet(m: Machine, key: Key, queryFails: bool) returns (r: Result<nat, SecretError>)
    ensures r.Ok? <==> Readable(m.view, key) && !queryFails
    ensures r.Ok? ==> r.value == |m.view|
    ensures r.Err? ==> r.error != ValueError
  {
    if queryFails {
      return Err(DatabaseError);
    }
    var todo := m.view.Keys;
    while todo != {}
      invariant todo <= m.view.Keys
      invariant forall id | id in m.view && id !in todo :: DecryptConfig(m.view[id], key).Ok?
      decreases |todo|
    {
      var id :| id in todo;
      todo := todo - {id};
      if DecryptConfig(m.view[id], key).Err? {
        return Err(SecretKeyError);
      }
    }
    return Ok(|m.view|);
  }

  method RekeyRows(m: Machine, oldKey: Key, newKey: Key) returns (r: Result<nat, SecretError>)
    modifies m`view
    ensures r.Ok? <==> Readable(old(m.view), oldKey)
    ensures r.Ok? ==> m.view == Rekeyed(old(m.view), oldKey, newKey) && r.value == |old(m.view)|
  {
    var channels := m.view;
    var count: nat := 0;
    var todo := channels.Keys;
    while todo != {}
      invariant todo <= channels.Keys
      invariant count == |channels.Keys| - |todo|
      invariant m.view == map id | id in channels ::
        if id in todo then channels[id] else RekeyedRow(channels[id], oldKey, newKey)
      invariant forall id | id in channels && id !in todo :: DecryptConfig(channels[id], oldKey).Ok?
      decreases |todo|
    {
      var id :| id in todo;
      todo := todo - {id};
      var plaintext := DecryptConfig(channels[id], oldKey);
      if plaintext.Err? {
        return Err(plaintext.error);
      }
      m.view := m.view[id := EncryptConfig(plaintext.value, newKey)];
      count := count + 1;
    }
    assert m.view == Rekeyed(channels, oldKey, newKey);
    return Ok(count);
  }

  /** One transaction: every row moves to the new key, or none does. */
  method RekeyNotificationSecrets(m: Machine, oldKey: Key, newKey: Key, commitFails: bool)
      returns (r: Result<nat, SecretError>)
    requires m.view == m.rows
    modifies m`view, m`rows, m`seen
    ensures r.Ok? <==> Readable(old(m.rows), oldKey) && !commitFails
    ensures r.Ok? ==> m.view == m.rows == Rekeyed(old(m.rows), oldKey, newKey) && r.value == |old(m.rows)|
    ensures r.Err? ==> m.rows == old(m.rows)
    ensures m.seen <= old(m.seen) + {m.Now()} && old(m.seen) <= m.seen
  {
    r := RekeyRows(m, oldKey, newKey);
    if r.Ok? {
      var ok := m.Commit(commitFails);
      if !ok {
        return Err(DatabaseError);
      }
    }
  }

  // ---------------------------------------------------------------- on the stored forms

  /** The forms of a row that can be read with a key. */
  predicate HasForm(value: Stored, key: Key, doc: Doc) {
    value == Dict(doc) || value == Plain(Object(doc)) || value == Encrypted(Sealed(key, Object(doc)))
  }

  lemma ReadableForms(value: Stored, key: Key)
    ensures DecryptConfig(value, key).Ok? <==> exists doc :: HasForm(value, key, doc)
    ensures forall doc :: HasForm(value, key, doc) <==> DecryptConfig(value, key) == Ok(doc)
  {
    match value
    case Dict(doc) => assert HasForm(value, key, doc);
    case Plain(Object(doc)) => assert HasForm(value, key, doc);
    case Encrypted(Sealed(k, Object(doc))) => assert k == key ==> HasForm(value, key, doc);
    case _ =>
  }

  /**
    Migration can succeed exactly when every row is a dictionary, the JSON text of an object, or
    such an object sealed under the key; it leaves each object sealed under the key.
   */
  lemma MigratedForms(rows: Rows, key: Key)
    ensures Readable(rows, key) <==> forall id | id in rows :: exists doc :: HasForm(rows[id], key, doc)
    ensures forall id, doc | id in rows && HasForm(rows[id], key, doc) ::
      Migrated(rows, key)[id] == Encrypted(Sealed(key, Object(doc)))
  {
    hide DecryptConfig, HasForm;
    forall id | id in rows ensures DecryptConfig(rows[id], key).Ok? <==> exists doc :: HasForm(rows[id], key, doc) {
      ReadableForms(rows[id], key);
    }
    forall id, doc | id in rows && HasForm(rows[id], key, doc)
      ensures Migrated(rows, key)[id] == Encrypted(Sealed(key, Object(doc)))
    {
      MigratedForm(rows[id], key, doc);
    }
  }

  lemma MigratedForm(value: Stored, key: Key, doc: Doc)
    requires HasForm(value, key, doc)
    ensures MigratedRow(value, key) == Encrypted(Sealed(key, Object(doc)))
  {
  }

  /** Rekeying seals the object of each row, which the old key reads, under the new key. */
  lemma RekeyedForms(rows: Rows, oldKey: Key, newKey: Key)
    ensures forall id, doc | id in rows && HasForm(rows[id], oldKey, doc) ::
      Rekeyed(rows, oldKey, newKey)[id] == Encrypted(Sealed(newKey, Object(doc)))
  {
  }

  /** The same documents row by row, `after` under one key and `before` under another. */
  lemma SamePlaintextsMeansSameForms(after: Rows, newKey: Key, before: Rows, oldKey: Key)
    requires SamePlaintexts(after, newKey, before, oldKey)
    ensures forall id, doc | id in before :: HasForm(before[id], oldKey, doc) <==> HasForm(after[id], newKey, doc)
  {
    hide DecryptConfig, HasForm;
    forall id, doc | id in before ensures HasForm(before[id], oldKey, doc) <==> HasForm(after[id], newKey, doc) {
      ReadableForms(before[id], oldKey);
      ReadableForms(after[id], newKey);
    }
  }

  /** What reading a row raises: the operator's key is wrong, or the row itself is. */
  lemma ReadErrors(value: Stored, key: Key)
    ensures DecryptConfig(value, key) == Err(SecretKeyError)
      <==> value == Encrypted(Garbage) || (value.Encrypted? && value.token.Sealed? && value.token.key != key)
    ensures DecryptConfig(value, key) != Err(DatabaseError)
  {
  }
}
