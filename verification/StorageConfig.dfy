/**
 A user's storage configuration: which object store holds the files and the credentials of an external
 one, encrypted with the user's master key when it is at hand; and the cutover that switches between
 the internal store and the external one.
 */
module StorageConfig {
  import opened Wrappers
  import opened Sealing

  datatype BackendType = Internal | External

  datatype Config = Config(backend: BackendType, endpoint: string, bucket: string, region: string,
                           access: Text, secret: Text, stsSupported: bool)

  /** A row stores NULL for an empty string, and reads it back as the empty string. */
  type Rows = map<nat, Config>

  const DEFAULT_CONFIG := Config(Internal, "", "", "", EMPTY, EMPTY, false)

  /** The master keys that are unlocked, by user. */
  type MasterKeys = map<nat, Key>

  predicate IsEncrypted(value: Text) { HasPrefix(UserMasterKey, value) }

  function EncryptCredential(masterKey: Key, value: Text, nonce: nat): Text {
    if value == EMPTY || IsEncrypted(value) then value else Seal(UserMasterKey, masterKey, nonce, value)
  }

  function DecryptCredential(masterKey: Key, value: Text): Result<Text> {
    if value == EMPTY || !IsEncrypted(value) then Success(value) else Open(UserMasterKey, masterKey, value)
  }

  // ----- Load and save ------------------------------------------------------------------------

  function StoredConfig(rows: Rows, user: nat): Config {
    if user in rows then rows[user] else DEFAULT_CONFIG
  }

  /** The credentials as a holder of the master key reads them. */
  function Credentials(masterKey: Key, config: Config): (Result<Text>, Result<Text>) {
    (DecryptCredential(masterKey, config.access), DecryptCredential(masterKey, config.secret))
  }

  function Load(rows: Rows, user: nat, masterKeys: MasterKeys): Result<Config> {
    var config := StoredConfig(rows, user);
    if user == 0 then Failure
    else if config.backend == Internal then Success(config)
    else if user !in masterKeys then Failure
    else
      var (access, secret) := Credentials(masterKeys[user], config);
      if access.Failure? || secret.Failure? then Failure
      else Success(config.(access := access.value, secret := secret.value))
  }

  /** The row that a save writes. */
  function Saved(user: nat, config: Config, masterKeys: MasterKeys, nonces: (nat, nat)): Config {
    if config.backend == Internal then config.(region := "")
    else if user !in masterKeys then config
    else config.(access := EncryptCredential(masterKeys[user], config.access, nonces.0),
                 secret := EncryptCredential(masterKeys[user], config.secret, nonces.1))
  }

  function Flip(backend: BackendType): BackendType { if backend == Internal then External else Internal }

  function CutoverConfig(config: Config): Config {
    config.(backend := Flip(config.backend), stsSupported := false)
  }

  class Repository {
    var rows: Rows

    method StorageConfig(user: nat, masterKeys: MasterKeys, fails: bool) returns (r: Result<Config>)
      ensures r == if fails then Failure else Load(rows, user, masterKeys)
    {
      if user == 0 { return Failure; }
      if fails { return Failure; }
      if user !in rows { return Success(DEFAULT_CONFIG); }
      var cfg := rows[user];
      if cfg.backend == External {
        if user !in masterKeys { return Failure; }
        var access := DecryptCredential(masterKeys[user], cfg.access);
        if access.Failure? { return Failure; }
        cfg := cfg.(access := access.value);
        var secret := DecryptCredential(masterKeys[user], cfg.secret);
        if secret.Failure? { return Failure; }
        cfg := cfg.(secret := secret.value);
      }
      r := Success(cfg);
    }

    method SaveStorageConfig(user: nat, config: Config, masterKeys: MasterKeys, nonces: (nat, nat), outcome: Outcome)
      returns (r: Result<()>)
      modifies this
      ensures rows == if user == 0 || outcome.NotApplied? then old(rows)
                      else old(rows)[user := Saved(user, config, masterKeys, nonces)]
      ensures r.Success? <==> user != 0 && outcome.Applied?
    {
      if user == 0 { return Failure; }
      var cfg := config;
      if cfg.backend == Internal {
        cfg := cfg.(region := "");
      }
      if cfg.backend == External {
        if user in masterKeys {
          cfg := cfg.(access := EncryptCredential(masterKeys[user], cfg.access, nonces.0));
          cfg := cfg.(secret := EncryptCredential(masterKeys[user], cfg.secret, nonces.1));
        }
      }
      if outcome.NotApplied? { return Failure; }
      rows := rows[user := cfg];
      r := if outcome.Applied? then Success(()) else Failure;
    }

    /** The closure that ends a migration: it reads the configuration and saves it with the type flipped. */
    method Cutover(user: nat, masterKeys: MasterKeys, nonces: (nat, nat), readFails: bool, outcome: Outcome)
      returns (r: Result<()>)
      modifies this
      ensures rows == AfterCutover(old(rows), user, masterKeys, nonces, readFails || outcome.NotApplied?)
      ensures r.Success? <==> Load(old(rows), user, masterKeys).Success? && !readFails && outcome.Applied?
    {
      var loaded := StorageConfig(user, masterKeys, readFails);
      if loaded.Failure? { return Failure; }
      var cfg := loaded.value;
      var newType := if cfg.backend == Internal then External else Internal;
      r := SaveStorageConfig(user,
                             Config(newType, cfg.endpoint, cfg.bucket, cfg.region, cfg.access, cfg.secret, false),
                             masterKeys, nonces, outcome);
    }
  }

  function AfterCutover(rows: Rows, user: nat, masterKeys: MasterKeys, nonces: (nat, nat), fails: bool): Rows {
    var loaded := Load(rows, user, masterKeys);
    if loaded.Failure? || fails then rows
    else rows[user := Saved(user, CutoverConfig(loaded.value), masterKeys, nonces)]
  }

  // ----- What is read and written -------------------------------------------------------------

  /** A credential reads as it is stored, unless it looks encrypted: then it reads as what was sealed with the
      master key, and everything else is an error. */
  lemma DecryptsIff(masterKey: Key, value: Text, plain: Text)
    ensures DecryptCredential(masterKey, value) == Success(plain)
            <==> if !IsEncrypted(value) then plain == value
                 else exists nonce :: value == Sealed(UserMasterKey, masterKey, nonce, plain)
  {
    if value.Sealed? {
      assert value == Sealed(value.scheme, value.key, value.nonce, value.plain);
    }
  }

  /** A user without a row has the internal store and nothing else; an internal configuration loads as it is
      stored; an external one loads if and only if the key is unlocked and both credentials open. */
  lemma LoadsIff(rows: Rows, user: nat, masterKeys: MasterKeys, config: Config)
    ensures Load(rows, user, masterKeys) == Success(config)
            <==> && user != 0
                 && var stored := if user in rows then rows[user]
                                  else Config(Internal, "", "", "", Raw(""), Raw(""), false);
                    if stored.backend == Internal then config == stored
                    else && user in masterKeys
                         && DecryptCredential(masterKeys[user], stored.access) == Success(config.access)
                         && DecryptCredential(masterKeys[user], stored.secret) == Success(config.secret)
                         && config == stored.(access := config.access, secret := config.secret)
  {
  }

  /** A save keeps what is not secret, except the region of an internal store; it seals exactly the credentials
      of an external store that are neither empty nor encrypted, if the key is unlocked. */
  lemma SavesSealed(user: nat, config: Config, masterKeys: MasterKeys, nonces: (nat, nat))
    ensures var saved := Saved(user, config, masterKeys, nonces);
      && saved.backend == config.backend && saved.endpoint == config.endpoint && saved.bucket == config.bucket
      && saved.stsSupported == config.stsSupported
      && saved.region == (if config.backend == Internal then "" else config.region)
      && (config.backend == External && user in masterKeys ==>
            && (saved.access == Raw("") || IsEncrypted(saved.access))
            && (saved.secret == Raw("") || IsEncrypted(saved.secret))
            && (saved.access == config.access
                || saved.access == Sealed(UserMasterKey, masterKeys[user], nonces.0, config.access))
            && (saved.secret == config.secret
                || saved.secret == Sealed(UserMasterKey, masterKeys[user], nonces.1, config.secret))
            && (IsEncrypted(config.access) ==> saved.access == config.access)
            && (IsEncrypted(config.secret) ==> saved.secret == config.secret))
      && (config.backend == Internal || user !in masterKeys ==>
            saved.access == config.access && saved.secret == config.secret)
  {
  }

  // ----- Saving then loading ------------------------------------------------------------------

  /** With the master key unlocked, an external configuration that was saved loads as it was if and
      only if neither credential looks encrypted already. */
  lemma SaveThenLoad(rows: Rows, user: nat, config: Config, masterKeys: MasterKeys, nonces: (nat, nat))
    requires user != 0 && user in masterKeys && config.backend == External
    ensures Load(rows[user := Saved(user, config, masterKeys, nonces)], user, masterKeys) == Success(config)
            <==> !IsEncrypted(config.access) && !IsEncrypted(config.secret)
  {
    if config.access.Sealed? {
      assert config.access.plain < config.access;
    }
    if config.secret.Sealed? {
      assert config.secret.plain < config.secret;
    }
  }

  /** Saved while the key is locked, the credentials stay open; they load once it is unlocked. */
  lemma SavedLocked(rows: Rows, user: nat, config: Config, locked: MasterKeys, unlocked: MasterKeys, nonces: (nat, nat))
    requires user != 0 && user !in locked && user in unlocked && config.backend == External
    requires !IsEncrypted(config.access) && !IsEncrypted(config.secret)
    ensures var after := rows[user := Saved(user, config, locked, nonces)];
      Load(after, user, locked).Failure? && Load(after, user, unlocked) == Success(config)
  {
  }

  // ----- Runs of cutovers ---------------------------------------------------------------------

  /** One cutover of a run: the random nonces it draws, and whether it fails to read or to write. */
  datatype Attempt = Attempt(nonces: (nat, nat), fails: bool)

  function After(rows: Rows, user: nat, masterKeys: MasterKeys, run: seq<Attempt>): Rows {
    if run == [] then rows
    else
      var last := run[|run| - 1];
      AfterCutover(After(rows, user, masterKeys, run[..|run| - 1]), user, masterKeys, last.nonces, last.fails)
  }

  /** How many cutovers of the run took effect. */
  function Effective(rows: Rows, user: nat, masterKeys: MasterKeys, run: seq<Attempt>): nat {
    if run == [] then 0
    else
      Effective(rows, user, masterKeys, run[..|run| - 1])
      + (if Load(After(rows, user, masterKeys, run[..|run| - 1]), user, masterKeys).Success? && !run[|run| - 1].fails
         then 1 else 0)
  }

  function Opens(r: (Result<Text>, Result<Text>)): bool { r.0.Success? && r.1.Success? }

  /** What opened cannot be taken for a ciphertext of the same cipher. */
  predicate OpensToPlain(r: (Result<Text>, Result<Text>)) {
    (r.0.Success? ==> !IsEncrypted(r.0.value)) && (r.1.Success? ==> !IsEncrypted(r.1.value))
  }

  lemma CredentialRoundTrip(masterKey: Key, value: Text, nonce: nat)
    ensures DecryptCredential(masterKey, EncryptCredential(masterKey, value, nonce))
            == DecryptCredential(masterKey, value)
    ensures DecryptCredential(masterKey, value).Success? ==>
      var plain := DecryptCredential(masterKey, value).value;
      DecryptCredential(masterKey, plain) == Success(plain) <==> !IsEncrypted(plain)
  {
    var r := DecryptCredential(masterKey, value);
    if r.Success? && r.value.Sealed? {
      assert r.value.plain < r.value;
    }
  }

  /** What one cutover that takes effect does. It keeps what the owner reads, unless an external
      configuration holds a credential that was encrypted twice. */
  lemma OneCutover(rows: Rows, user: nat, masterKeys: MasterKeys, nonces: (nat, nat))
    requires user != 0 && user in masterKeys && Load(rows, user, masterKeys).Success?
    ensures var before := StoredConfig(rows, user);
      var after := StoredConfig(AfterCutover(rows, user, masterKeys, nonces, false), user);
      && after.endpoint == before.endpoint && after.bucket == before.bucket
      && after.backend == Flip(before.backend) && !after.stsSupported
      && (after.region == if before.backend == Internal then before.region else "")
      && (Credentials(masterKeys[user], after) == Credentials(masterKeys[user], before)
          <==> before.backend == Internal || OpensToPlain(Credentials(masterKeys[user], before)))
  {
    var before := StoredConfig(rows, user);
    CredentialRoundTrip(masterKeys[user], before.access, nonces.0);
    CredentialRoundTrip(masterKeys[user], before.secret, nonces.1);
  }

  /** Over any run of cutovers, failing ones included, the endpoint, the bucket and the credentials as
      their owner reads them never change, the type alternates, and other users keep their rows. */
  lemma {:induction false} CutoversKeepCredentials(rows: Rows, user: nat, masterKeys: MasterKeys, run: seq<Attempt>)
    requires user != 0 && user in masterKeys
    requires OpensToPlain(Credentials(masterKeys[user], StoredConfig(rows, user)))
    ensures var (before, after) := (StoredConfig(rows, user), StoredConfig(After(rows, user, masterKeys, run), user));
      && after.endpoint == before.endpoint && after.bucket == before.bucket
      && Credentials(masterKeys[user], after) == Credentials(masterKeys[user], before)
      && (after.backend == before.backend <==> Effective(rows, user, masterKeys, run) % 2 == 0)
      && (Effective(rows, user, masterKeys, run) != 0 ==> !after.stsSupported)
    ensures forall u | u != user :: StoredConfig(After(rows, user, masterKeys, run), u) == StoredConfig(rows, u)
  {
    if run != [] {
      var front, last := run[..|run| - 1], run[|run| - 1];
      CutoversKeepCredentials(rows, user, masterKeys, front);
      var mid := After(rows, user, masterKeys, front);
      if Load(mid, user, masterKeys).Success? && !last.fails {
        OneCutover(mid, user, masterKeys, last.nonces);
      }
    }
  }

  /** With credentials that open, every cutover whose write succeeds takes effect. */
  lemma CutoverTakesEffect(rows: Rows, user: nat, masterKeys: MasterKeys, run: seq<Attempt>)
    requires user != 0 && user in masterKeys
    requires OpensToPlain(Credentials(masterKeys[user], StoredConfig(rows, user)))
    requires Opens(Credentials(masterKeys[user], StoredConfig(rows, user)))
    ensures Load(After(rows, user, masterKeys, run), user, masterKeys).Success?
  {
    CutoversKeepCredentials(rows, user, masterKeys, run);
  }
}
