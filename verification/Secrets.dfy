/**
  Application secrets and encrypted notification configurations (app/security/secrets.py).
  Encryption is symbolic: a token opens under the key it was sealed with and under no other.
 */
module Secrets {
  import opened Base
  import opened Text

  // The 32 bytes of a Fernet key.
  type Key = nat

  // Base64 decoding of a key text (None: not the text of a Fernet key) and SHA-256.
  datatype Crypto = Crypto(parse: string -> Option<Key>, digest: string -> Key)

  datatype SecretError = SecretKeyError | ValueError | DatabaseError

  // ---------------------------------------------------------------- which key is in force

  const PLACEHOLDERS: set<string> := {
    "", "change-me", "changeme", "secret", "password", "admin", "default", "your-secret-key", "replace-me"
  }

  predicate IsUsableEnvSecret(value: string) {
    var stripped := Strip(value);
    stripped != "" && Lower(stripped) !in PLACEHOLDERS && |stripped| >= 16
  }

  /** Every placeholder is too short anyway: the length alone decides. */
  lemma UsableMeansLong(value: string)
    ensures IsUsableEnvSecret(value) <==> |Strip(value)| >= 16
  {
    hide Strip, Lower;
    var low := Lower(Strip(value));
    if |low| >= 16 {
      NoLongPlaceholder(low);
    }
  }

  lemma NoLongPlaceholder(s: string)
    requires |s| >= 16
    ensures s !in PLACEHOLDERS
  {
  }

  // The key in a key file: its first line if that is a key text, else the digest of everything.
  function KeyOfFile(c: Crypto, content: string): Option<Key> {
    var raw := Strip(content);
    if raw == "" then None
    else
      match c.parse(Strip(FirstLine(raw)))
      case Some(k) => Some(k)
      case None => Some(c.digest(raw))
  }

  function FirstLine(s: string): string {
    s[..BreakAt(s)]
  }

  // resolve_fernet(allow_generate=False); `file` is the content of the key file, if there is one.
  function Resolve(c: Crypto, env: string, file: Option<string>): Option<Key> {
    if IsUsableEnvSecret(env) then Some(c.digest(Strip(env)))
    else if file.Some? then KeyOfFile(c, file.value)
    else None
  }

  // _fernet_from_secret_string of the rekey command; None: empty secret.
  function KeyFromSecretString(c: Crypto, secret: string): Option<Key> {
    var s := Strip(secret);
    if s == "" then None
    else if c.parse(s).Some? then c.parse(s)
    else Some(c.digest(s))
  }

  /**
    The command and the server take an environment secret for the same key exactly when the
    secret is not the text of some other Fernet key: the server always hashes it.
   */
  lemma EnvSecretAgreement(c: Crypto, secret: string, file: Option<string>)
    requires IsUsableEnvSecret(secret)
    ensures KeyFromSecretString(c, secret) == Resolve(c, secret, file)
       <==> c.parse(Strip(secret)) in {None, Some(c.digest(Strip(secret)))}
  {
  }

  /** A generated key given as environment secret: the server hashes it, the command does not. */
  lemma KeyTextDisagrees(c: Crypto, secret: string, file: Option<string>)
    requires IsKeyText(c, secret) && |secret| >= 16 && c.parse(secret) != Some(c.digest(secret))
    ensures IsUsableEnvSecret(secret) && KeyFromSecretString(c, secret) != Resolve(c, secret, file)
  {
    StripFixes(secret);
    UsableMeansLong(secret);
    EnvSecretAgreement(c, secret, file);
  }

  /** A key file is the secret it contains, as long as it is a single line. */
  lemma FileSecretAgreement(c: Crypto, content: string, env: string)
    requires !IsUsableEnvSecret(env) && OneLine(Strip(content))
    ensures KeyFromSecretString(c, content) == Resolve(c, env, Some(content))
  {
    hide IsUsableEnvSecret, Strip, BreakAt, IsLineBreak;
    OneLineIsFirstLine(Strip(content));
    StripStrips(content);
    StripFixes(Strip(content));
  }

  lemma OneLineIsFirstLine(s: string)
    requires OneLine(s)
    ensures FirstLine(s) == s
  {
    assert forall i | 0 <= i < |s| :: s[i] in s;
  }

  // Fernet.generate_key: one line of text that reads back as a key.
  ghost predicate IsKeyText(c: Crypto, text: string) {
    text != "" && Stripped(text) && OneLine(text) && c.parse(text).Some?
  }

  // What write_key_file puts on disk.
  function KeyFileText(key: string): string {
    key + if key != "" && key[|key| - 1] == '\n' then "" else "\n"
  }

  lemma KeyFileRoundTrip(c: Crypto, text: string)
    requires IsKeyText(c, text)
    ensures KeyOfFile(c, KeyFileText(text)) == c.parse(text)
    ensures KeyOfFile(c, "") == None
  {
    assert KeyFileText(text) == text + "\n";
    RStripAppend(text, "\n");
    assert RStrip("\n") == "";
    assert LStrip(text + "\n") == text + "\n";
    assert Strip(text + "\n") == text;
    OneLineIsFirstLine(text);
    StripFixes(text);
  }

  /** Of a longer file only the first line is read as a key; without a key there all of it is a secret. */
  lemma KeyFileLines(c: Crypto, content: string, line: string, pad: string, rest: string)
    requires Strip(content) == line + pad + "\n" + rest
    requires line != "" && Stripped(line) && AllSpace(pad) && OneLine(line + pad)
    ensures KeyOfFile(c, content) == if c.parse(line).Some? then c.parse(line) else Some(c.digest(Strip(content)))
  {
    hide Strip, IsSpace, IsLineBreak;
    var raw, first := Strip(content), line + pad;
    assert raw[|first|] == '\n' && raw[..|first|] == first;
    NewlineBreaks();
    forall i | 0 <= i < |first| ensures !IsLineBreak(raw[i]) { assert raw[i] == first[i] && first[i] in first; }
    BreakAtFirst(raw, |first|);
    SpaceAtEnd(line, pad);
    StripFixes(line);
  }

  lemma NewlineBreaks()
    ensures IsLineBreak('\n')
  {
  }

  /** An environment secret of at least 16 characters hides the key file; without either there is no key. */
  lemma EnvSecretFirst(c: Crypto, env: string, file: Option<string>)
    ensures |Strip(env)| >= 16 ==> Resolve(c, env, file) == Some(c.digest(Strip(env)))
    ensures |Strip(env)| < 16 ==> (Resolve(c, env, file) == None <==> file == None || Strip(file.value) == "")
  {
    hide IsUsableEnvSecret, Strip, BreakAt;
    UsableMeansLong(env);
  }

  // ---------------------------------------------------------------- stored configurations

  // A JSON object in its compact text form.
  type Doc = string

  datatype Json = Malformed | NonObject | Object(doc: Doc)

  // Garbage opens under no key; NonAscii cannot even be encoded for decryption.
  datatype Token = Sealed(key: Key, payload: Json) | Garbage | NonAscii

  // The value of the config_json column; Encrypted has the "enc:v1:" prefix.
  datatype Stored = Dict(doc: Doc) | Encrypted(token: Token) | Plain(json: Json) | OtherType

  function EncryptConfig(doc: Doc, key: Key): Stored {
    Encrypted(Sealed(key, Object(doc)))
  }

  function DecryptConfig(value: Stored, key: Key): Result<Doc, SecretError> {
    match value
    case Dict(doc) => Ok(doc)
    case Encrypted(NonAscii) => Err(ValueError)
    case Encrypted(Garbage) => Err(SecretKeyError)
    case Encrypted(Sealed(k, payload)) =>
      if k != key then Err(SecretKeyError)
      else if payload.Object? then Ok(payload.doc)
      else Err(ValueError)
    case Plain(json) => if json.Object? then Ok(json.doc) else Err(ValueError)
    case OtherType => Err(ValueError)
  }

  function CanDecrypt(value: Stored, key: Key): bool {
    !value.Encrypted? || DecryptConfig(value, key).Ok?
  }

  lemma EncryptThenDecrypt(doc: Doc, sealing: Key, opening: Key)
    ensures DecryptConfig(EncryptConfig(doc, sealing), opening) == if opening == sealing then Ok(doc)
      else Err(SecretKeyError)
  {
  }

  type Rows = map<nat, Stored>

  ghost predicate Readable(rows: Rows, key: Key) {
    forall id | id in rows :: DecryptConfig(rows[id], key).Ok?
  }

  ghost predicate AllEncrypted(rows: Rows) {
    forall id | id in rows :: rows[id].Encrypted?
  }

  /** The same channels with the same plaintexts: `after` under one key, `before` under another. */
  ghost predicate SamePlaintexts(after: Rows, newKey: Key, before: Rows, oldKey: Key) {
    && after.Keys == before.Keys
    && forall id | id in after ::
      && DecryptConfig(after[id], newKey).Ok?
      && DecryptConfig(after[id], newKey) == DecryptConfig(before[id], oldKey)
  }
}
