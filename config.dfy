/** The configuration vault: a JSON configuration kept either as plain text
    at `config_path` or encrypted at `{config_path}.enc` with its salt at
    `{config_path}.salt`, the password coming from `CONFIG_PASSWORD` when
    loading and from the caller when saving; and the getters that pick one
    service's entry out of a section of the loaded configuration. */
module ConfigVault {
  import opened Common
  import opened JsonValue
  import opened Primitives
  import opened FileSystem
  import SecureData

  const DEFAULT_CONFIG_PATH := "config/config.json"
  const PASSWORD_VAR := "CONFIG_PASSWORD"

  function EncPath(path: string): string {
    path + ".enc"
  }

  /** The three files of a configuration are three different paths. */
  lemma VaultPathsDistinct(path: string)
    ensures path != EncPath(path) && path != SecureData.SaltPath(path)
    ensures EncPath(path) != SecureData.SaltPath(path)
  {
    assert |path| < |EncPath(path)| < |SecureData.SaltPath(path)|;
  }

  /** `config_path`, or the default when the caller passes `None`. */
  function ResolvePath(configPath: Option<string>): (r: string)
    ensures configPath.Some? ==> r == configPath.value
    ensures configPath.None? ==> r == DEFAULT_CONFIG_PATH
  {
    configPath.GetOr(DEFAULT_CONFIG_PATH)
  }

  /** A password counts only when it is set and non-empty (`if password:`,
      `if not password`). */
  predicate HasPassword(password: Option<string>) {
    password.Some? && password.value != ""
  }

  function EnvPassword(env: map<string, string>): (r: Option<string>)
    ensures r.Some? <==> PASSWORD_VAR in env
  {
    if PASSWORD_VAR in env then Some(env[PASSWORD_VAR]) else None
  }

  /** `encrypt_config(config, key)`: unlike the secure-data vault, a key
      that `Fernet` refuses, and then an integer `json.dumps` cannot write,
      let their `ValueError` through unwrapped. */
  function EncryptConfig(p: Primitives, config: Json, key: bytes, nonce: bytes): (r: Result<bytes>)
    ensures r.Err? <==> !p.isFernetKey(key) || !Serialisable(config)
    ensures !p.isFernetKey(key) ==> r == Err(Raised(InvalidKey))
    ensures p.isFernetKey(key) && !Serialisable(config) ==> r == Err(Raised(IntegerTooLong))
    ensures r.Ok? ==> r.value == p.fernetEncrypt(key, nonce, p.jsonDumps(config))
  {
    if !p.isFernetKey(key) then Err(Raised(InvalidKey))
    else if !Serialisable(config) then Err(Raised(IntegerTooLong))
    else Ok(p.fernetEncrypt(key, nonce, p.jsonDumps(config)))
  }

  /** `decrypt_config(encrypted_data, key)`: the library's own exceptions,
      in the order they can arise. */
  function DecryptConfig(p: Primitives, token: bytes, key: bytes): (r: Result<Json>)
    ensures r.Err? ==> r.error.Raised?
    ensures !p.isFernetKey(key) ==> r == Err(Raised(InvalidKey))
    ensures p.isFernetKey(key) && p.fernetDecrypt(key, token).None? ==> r == Err(Raised(InvalidToken))
    ensures r.Ok? ==> p.isFernetKey(key) && p.fernetDecrypt(key, token).Some? &&
                      p.jsonLoads(p.fernetDecrypt(key, token).value) == Some(r.value)
  {
    if !p.isFernetKey(key) then Err(Raised(InvalidKey))
    else match p.fernetDecrypt(key, token)
      case None => Err(Raised(InvalidToken))
      case Some(plain) =>
        match p.jsonLoads(plain)
        case None => Err(Raised(InvalidJson))
        case Some(j) => Ok(j)
  }

  lemma EncryptDecryptConfig(p: Primitives, config: Json, key: bytes, nonce: bytes)
    requires Sound(p) && WellFormed(config) && p.isFernetKey(key)
    ensures EncryptConfig(p, config, key, nonce).Ok?
    ensures DecryptConfig(p, EncryptConfig(p, config, key, nonce).value, key) == Ok(config)
  {
    WellFormedSerialisable(config);
    var plain := p.jsonDumps(config);
    assert p.fernetDecrypt(key, p.fernetEncrypt(key, nonce, plain)) == Some(plain);
    assert p.jsonLoads(plain) == Some(config);
  }

  /** Everything raised inside `load_config` and `save_config` reaches the
      caller as `ConfigError`. */
  function AsConfigError(e: Error): (r: Error)
    ensures r.ConfigError? && r.reason == e.reason
  {
    ConfigError(e.reason)
  }

  // ---------------------------------------------------------------------
  // load_config

  /** What `load_config(config_path)` does on `files` with the environment
      `env`, where the paths in `unreadable` exist but cannot be opened for
      reading. */
  function LoadConfigRun(p: Primitives, files: map<string, bytes>, unreadable: set<string>,
                         env: map<string, string>, configPath: Option<string>): (r: Run<Json>)
    ensures r.result.Err? ==> r.result.error.ConfigError?
    ensures forall i :: 0 <= i < |r.events| ==> r.events[i].Read?
    // the encrypted file, when present, is the one used
    ensures var path := ResolvePath(configPath);
            EncPath(path) in files ==>
              && (!HasPassword(EnvPassword(env)) ==> r == Run(Err(ConfigError(SecretUnset(PASSWORD_VAR))), []))
              && (HasPassword(EnvPassword(env)) && SecureData.SaltPath(path) !in files ==>
                    r == Run(Err(ConfigError(SaltFileMissing)), []))
              && (HasPassword(EnvPassword(env)) && SecureData.SaltPath(path) in files &&
                  SecureData.SaltPath(path) in unreadable ==>
                    r == Run(Err(ConfigError(ReadDenied(SecureData.SaltPath(path)))), [Read(SecureData.SaltPath(path))]))
              && (HasPassword(EnvPassword(env)) && SecureData.SaltPath(path) in files &&
                  SecureData.SaltPath(path) !in unreadable ==>
                    && r.events == [Read(SecureData.SaltPath(path)), Read(EncPath(path))]
                    && (EncPath(path) in unreadable ==> r.result == Err(ConfigError(ReadDenied(EncPath(path))))))
    // with a password and a readable salt and token, the outcome is that of
    // decrypting the token under the key derived from them
    ensures var path := ResolvePath(configPath);
            EncPath(path) in files && EncPath(path) !in unreadable && HasPassword(EnvPassword(env)) &&
            SecureData.SaltPath(path) in files && SecureData.SaltPath(path) !in unreadable ==>
              var key := SecureData.DeriveKey(p, EnvPassword(env).value, Supplied(files[SecureData.SaltPath(path)])).0;
              var d := DecryptConfig(p, files[EncPath(path)], key);
              && (r.result.Ok? <==> d.Ok?)
              && (d.Ok? ==> r.result.value == d.value)
              && (d.Err? ==> r.result.error.reason == d.error.reason)
    // otherwise only the plain file is opened
    ensures var path := ResolvePath(configPath);
            EncPath(path) !in files ==>
              && r.events == [Read(path)]
              && (path !in files ==> r.result == Err(ConfigError(FileMissing(path))))
              && (path in files && path in unreadable ==> r.result == Err(ConfigError(ReadDenied(path))))
              && (path in files && path !in unreadable ==> (r.result.Ok? <==> p.jsonLoads(files[path]).Some?))
              && (path in files && path !in unreadable && p.jsonLoads(files[path]).None? ==>
                    r.result == Err(ConfigError(InvalidJson)))
              && (path in files && path !in unreadable && p.jsonLoads(files[path]).Some? ==>
                    r.result == Ok(p.jsonLoads(files[path]).value))
  {
    var path := ResolvePath(configPath);
    if EncPath(path) in files then
      var password := EnvPassword(env);
      if !HasPassword(password) then Run(Err(ConfigError(SecretUnset(PASSWORD_VAR))), [])
      else if SecureData.SaltPath(path) !in files then Run(Err(ConfigError(SaltFileMissing)), [])
      else if SecureData.SaltPath(path) in unreadable then
        Run(Err(ConfigError(ReadDenied(SecureData.SaltPath(path)))), [Read(SecureData.SaltPath(path))])
      else
        var (key, _) := SecureData.DeriveKey(p, password.value, Supplied(files[SecureData.SaltPath(path)]));
        var events := [Read(SecureData.SaltPath(path)), Read(EncPath(path))];
        if EncPath(path) in unreadable then Run(Err(ConfigError(ReadDenied(EncPath(path)))), events)
        else match DecryptConfig(p, files[EncPath(path)], key)
          case Ok(config) => Run(Ok(config), events)
          case Err(e) => Run(Err(AsConfigError(e)), events)
    else
      var events := [Read(path)];
      if path !in files then Run(Err(ConfigError(FileMissing(path))), events)
      else if path in unreadable then Run(Err(ConfigError(ReadDenied(path))), events)
      else match p.jsonLoads(files[path])
        case None => Run(Err(ConfigError(InvalidJson)), events)
        case Some(config) => Run(Ok(config), events)
  }

  /** While `{config_path}.enc` exists, the plain file is never consulted:
      two file systems that agree on the encrypted file and its salt load
      the same configuration, whatever either holds at `config_path`. */
  lemma LoadPrefersVault(p: Primitives, files1: map<string, bytes>, files2: map<string, bytes>,
                         unreadable: set<string>, env: map<string, string>, configPath: Option<string>)
    requires var path := ResolvePath(configPath);
             && EncPath(path) in files1 && EncPath(path) in files2
             && files1[EncPath(path)] == files2[EncPath(path)]
             && (SecureData.SaltPath(path) in files1 <==> SecureData.SaltPath(path) in files2)
             && (SecureData.SaltPath(path) in files1 ==>
                   files1[SecureData.SaltPath(path)] == files2[SecureData.SaltPath(path)])
    ensures LoadConfigRun(p, files1, unreadable, env, configPath) == LoadConfigRun(p, files2, unreadable, env, configPath)
  {
  }

  // ---------------------------------------------------------------------
  // save_config

  /** The password branch of `save_config` on `path`: write the fresh salt,
      encrypt, write the token, and remove the plain file if there is one;
      the plain file is never written. */
  function EncryptedSaveRun(p: Primitives, files: map<string, bytes>, denied: set<string>, config: Json,
                            path: string, password: string, draw: Salt, nonce: bytes): (r: Run<()>)
    ensures r.result.Err? ==> r.result.error.ConfigError?
    ensures && |r.events| <= 3
            && (|r.events| >= 1 ==> r.events[0] == Wrote(SecureData.SaltPath(path), draw))
            && (|r.events| >= 2 ==> r.events[1].Wrote? && r.events[1].path == EncPath(path))
            && (|r.events| == 3 ==> r.events[2] == Removed(path))
            && (r.result.Ok? <==> |r.events| == (if path in files then 3 else 2))
    // a denied salt write stops the save before anything is written
    ensures SecureData.SaltPath(path) in denied ==>
              r == Run(Err(ConfigError(WriteDenied(SecureData.SaltPath(path)))), [])
    // after the salt: encryption under the key derived from the fresh salt,
    // then the `.enc` write, then the removal of the plain file
    ensures var token := EncryptConfig(p, config, SecureData.DeriveKey(p, password, Urandom(draw)).0, nonce);
            SecureData.SaltPath(path) !in denied ==>
              && (token.Err? ==>
                    r == Run(Err(ConfigError(token.error.reason)), [Wrote(SecureData.SaltPath(path), draw)]))
              && (token.Ok? && EncPath(path) in denied ==>
                    r == Run(Err(ConfigError(WriteDenied(EncPath(path)))), [Wrote(SecureData.SaltPath(path), draw)]))
              && (|r.events| >= 2 ==> token.Ok? && r.events[1] == Wrote(EncPath(path), token.value))
              && (token.Ok? && EncPath(path) !in denied ==>
                    r.result == (if path in files && path in denied then Err(ConfigError(WriteDenied(path))) else Ok(())))
  {
    var (key, salt) := SecureData.DeriveKey(p, password, Urandom(draw));
    if SecureData.SaltPath(path) in denied then Run(Err(ConfigError(WriteDenied(SecureData.SaltPath(path)))), [])
    else
      var saltWritten := [Wrote(SecureData.SaltPath(path), salt)];
      var token := EncryptConfig(p, config, key, nonce);
      if token.Err? then Run(Err(AsConfigError(token.error)), saltWritten)
      else if EncPath(path) in denied then Run(Err(ConfigError(WriteDenied(EncPath(path)))), saltWritten)
      else
        var tokenWritten := saltWritten + [Wrote(EncPath(path), token.value)];
        if path !in files then Run(Ok(()), tokenWritten)
        else if path in denied then Run(Err(ConfigError(WriteDenied(path))), tokenWritten)
        else Run(Ok(()), tokenWritten + [Removed(path)])
  }

  /** What `save_config(config, config_path, password)` does on `files`
      when `os.urandom` yields `draw` and Fernet uses `nonce`: the password
      branch above, or else the plain file written. */
  function SaveConfigRun(p: Primitives, files: map<string, bytes>, denied: set<string>, config: Json,
                         configPath: Option<string>, password: Option<string>,
                         draw: Salt, nonce: bytes): (r: Run<()>)
    ensures r.result.Err? ==> r.result.error.ConfigError?
    // with a password: the salt, then the token, then the removal; the
    // plain file is never written
    ensures var path := ResolvePath(configPath);
            HasPassword(password) ==>
              && |r.events| <= 3
              && (|r.events| >= 1 ==> r.events[0] == Wrote(SecureData.SaltPath(path), draw))
              && (|r.events| >= 2 ==> r.events[1].Wrote? && r.events[1].path == EncPath(path))
              && (|r.events| == 3 ==> r.events[2] == Removed(path))
              && (r.result.Ok? <==> |r.events| == (if path in files then 3 else 2))
              && r == EncryptedSaveRun(p, files, denied, config, path, password.value, draw, nonce)
    // without one: the plain file only, serialised with indentation; an
    // integer too long to write makes `json.dump` raise after the file was
    // opened, leaving what it had written by then
    ensures var path := ResolvePath(configPath);
            !HasPassword(password) ==>
              r == (if path in denied then Run(Err(ConfigError(WriteDenied(path))), [])
                    else if !Serialisable(config) then
                      Run(Err(ConfigError(IntegerTooLong)), [Wrote(path, p.jsonDumpsIndented(config))])
                    else Run(Ok(()), [Wrote(path, p.jsonDumpsIndented(config))]))
  {
    var path := ResolvePath(configPath);
    if HasPassword(password) then EncryptedSaveRun(p, files, denied, config, path, password.value, draw, nonce)
    else if path in denied then Run(Err(ConfigError(WriteDenied(path))), [])
    else if !Serialisable(config) then
      Run(Err(ConfigError(IntegerTooLong)), [Wrote(path, p.jsonDumpsIndented(config))])
    else Run(Ok(()), [Wrote(path, p.jsonDumpsIndented(config))])
  }

  /** The files after an encrypted save that wrote the salt and the token. */
  lemma EncryptedSaveFiles(files: map<string, bytes>, path: string, salt: bytes, token: bytes)
    ensures Replay(files, [Wrote(SecureData.SaltPath(path), salt), Wrote(EncPath(path), token)]) ==
            files[SecureData.SaltPath(path) := salt][EncPath(path) := token]
    ensures Replay(files, [Wrote(SecureData.SaltPath(path), salt), Wrote(EncPath(path), token), Removed(path)]) ==
            files[SecureData.SaltPath(path) := salt][EncPath(path) := token] - {path}
  {
    var e1 := [Wrote(SecureData.SaltPath(path), salt)];
    var e2 := e1 + [Wrote(EncPath(path), token)];
    ReplaySnoc(files, [], e1[0]);
    ReplaySnoc(files, e1, e2[1]);
    ReplaySnoc(files, e2, Removed(path));
  }

  /** Round trip through the vault: a save with a password, followed by a
      load with that password in `CONFIG_PASSWORD`, returns the saved
      configuration, and the plain file is gone. */
  lemma EncryptedRoundTrip(p: Primitives, files: map<string, bytes>, denied: set<string>, unreadable: set<string>,
                           config: Json, configPath: Option<string>, env: map<string, string>, draw: Salt, nonce: bytes)
    requires Sound(p) && WellFormed(config)
    requires var path := ResolvePath(configPath);
             && PASSWORD_VAR in env && env[PASSWORD_VAR] != ""
             && SecureData.SaltPath(path) !in denied && EncPath(path) !in denied && path !in denied
    ensures var save := SaveConfigRun(p, files, denied, config, configPath, EnvPassword(env), draw, nonce);
            var path := ResolvePath(configPath);
            && save.result == Ok(())
            && path !in Replay(files, save.events)
            && LoadConfigRun(p, Replay(files, save.events), unreadable, env, configPath).result ==
               (if SecureData.SaltPath(path) in unreadable then Err(ConfigError(ReadDenied(SecureData.SaltPath(path))))
                else if EncPath(path) in unreadable then Err(ConfigError(ReadDenied(EncPath(path))))
                else Ok(config))
  {
    var path := ResolvePath(configPath);
    var password := env[PASSWORD_VAR];
    VaultPathsDistinct(path);
    var key := PasswordKey(p, password, draw);
    PasswordKeyIsFernetKey(p, password, draw);
    EncryptDecryptConfig(p, config, key, nonce);
    var token := EncryptConfig(p, config, key, nonce).value;
    EncryptedSaveFiles(files, path, draw, token);
  }

  /** Round trip through the plain file, when no encrypted file shadows it. */
  lemma PlainRoundTrip(p: Primitives, files: map<string, bytes>, denied: set<string>, unreadable: set<string>,
                       config: Json, configPath: Option<string>, password: Option<string>, env: map<string, string>,
                       draw: Salt, nonce: bytes)
    requires Sound(p) && WellFormed(config)
    requires !HasPassword(password)
    requires EncPath(ResolvePath(configPath)) !in files && ResolvePath(configPath) !in denied
    ensures var save := SaveConfigRun(p, files, denied, config, configPath, password, draw, nonce);
            var path := ResolvePath(configPath);
            && save.result == Ok(())
            && LoadConfigRun(p, Replay(files, save.events), unreadable, env, configPath).result ==
               (if path in unreadable then Err(ConfigError(ReadDenied(path))) else Ok(config))
  {
    WellFormedSerialisable(config);
    var path := ResolvePath(configPath);
    VaultPathsDistinct(path);
    ReplaySnoc(files, [], Wrote(path, p.jsonDumpsIndented(config)));
  }

  /** A save without a password while an encrypted configuration exists
      writes the plain file, which the next load ignores: it still returns
      what the encrypted file holds. */
  lemma PlainSaveShadowed(p: Primitives, files: map<string, bytes>, denied: set<string>, unreadable: set<string>,
                          config: Json, configPath: Option<string>, password: Option<string>, env: map<string, string>,
                          draw: Salt, nonce: bytes)
    requires !HasPassword(password)
    requires EncPath(ResolvePath(configPath)) in files
    ensures var save := SaveConfigRun(p, files, denied, config, configPath, password, draw, nonce);
            LoadConfigRun(p, Replay(files, save.events), unreadable, env, configPath) ==
            LoadConfigRun(p, files, unreadable, env, configPath)
  {
    var path := ResolvePath(configPath);
    VaultPathsDistinct(path);
    var save := SaveConfigRun(p, files, denied, config, configPath, password, draw, nonce);
    var after := Replay(files, save.events);
    if path !in denied {
      ReplaySnoc(files, [], Wrote(path, p.jsonDumpsIndented(config)));
      assert save.events == [] + [Wrote(path, p.jsonDumpsIndented(config))];
    } else {
      assert after == files;
    }
    LoadPrefersVault(p, Replay(files, save.events), files, unreadable, env, configPath);
  }

  /** `load_config` step by step on a disk. */
  method LoadConfig(disk: Disk, p: Primitives, env: map<string, string>, configPath: Option<string>)
    returns (r: Result<Json>)
    modifies disk`trace
    ensures r == LoadConfigRun(p, disk.files, disk.unreadable, env, configPath).result
    ensures disk.trace == old(disk.trace) + LoadConfigRun(p, disk.files, disk.unreadable, env, configPath).events
  {
    var path := ResolvePath(configPath);
    if disk.Exists(EncPath(path)) {
      var password := EnvPassword(env);
      if !HasPassword(password) {
        return Err(ConfigError(SecretUnset(PASSWORD_VAR)));
      }
      if !disk.Exists(SecureData.SaltPath(path)) {
        return Err(ConfigError(SaltFileMissing));
      }
      var salt := disk.ReadFile(SecureData.SaltPath(path));
      if salt.Err? {
        return Err(AsConfigError(salt.error));
      }
      var (key, _) := SecureData.DeriveKey(p, password.value, Supplied(salt.value));
      var token := disk.ReadFile(EncPath(path));
      if token.Err? {
        return Err(AsConfigError(token.error));
      }
      var config := DecryptConfig(p, token.value, key);
      if config.Err? {
        return Err(AsConfigError(config.error));
      }
      return config;
    }
    var text := disk.ReadFile(path);
    if text.Err? {
      return Err(AsConfigError(text.error));
    }
    var config := p.jsonLoads(text.value);
    if config.None? {
      return Err(ConfigError(InvalidJson));
    }
    r := Ok(config.value);
  }

  /** The password branch of `save_config` step by step on a disk. */
  method SaveEncrypted(disk: Disk, p: Primitives, config: Json, path: string,
                       password: string, draw: Salt, nonce: bytes) returns (r: Result<()>)
    modifies disk
    ensures r == EncryptedSaveRun(p, old(disk.files), old(disk.denied), config, path, password, draw, nonce).result
    ensures disk.files == Replay(old(disk.files),
                                 EncryptedSaveRun(p, old(disk.files), old(disk.denied), config, path, password, draw, nonce).events)
    ensures disk.trace == old(disk.trace) +
                          EncryptedSaveRun(p, old(disk.files), old(disk.denied), config, path, password, draw, nonce).events
    ensures disk.denied == old(disk.denied) && disk.unreadable == old(disk.unreadable)
  {
    VaultPathsDistinct(path);
    var (key, salt) := SecureData.DeriveKey(p, password, Urandom(draw));
    var ok := disk.WriteFile(SecureData.SaltPath(path), salt);
    if !ok {
      return Err(ConfigError(WriteDenied(SecureData.SaltPath(path))));
    }
    ReplaySnoc(old(disk.files), [], Wrote(SecureData.SaltPath(path), salt));
    var token := EncryptConfig(p, config, key, nonce);
    if token.Err? {
      return Err(AsConfigError(token.error));
    }
    ok := disk.WriteFile(EncPath(path), token.value);
    if !ok {
      return Err(ConfigError(WriteDenied(EncPath(path))));
    }
    EncryptedSaveFiles(old(disk.files), path, salt, token.value);
    if disk.Exists(path) {
      ok := disk.RemoveFile(path);
      if !ok {
        return Err(ConfigError(WriteDenied(path)));
      }
    }
    return Ok(());
  }

  /** `save_config` step by step on a disk. */
  method SaveConfig(disk: Disk, p: Primitives, config: Json, configPath: Option<string>,
                    password: Option<string>, draw: Salt, nonce: bytes) returns (r: Result<()>)
    modifies disk
    ensures r == SaveConfigRun(p, old(disk.files), old(disk.denied), config, configPath, password, draw, nonce).result
    ensures disk.files == Replay(old(disk.files),
                                 SaveConfigRun(p, old(disk.files), old(disk.denied), config, configPath, password, draw, nonce).events)
    ensures disk.trace == old(disk.trace) +
                          SaveConfigRun(p, old(disk.files), old(disk.denied), config, configPath, password, draw, nonce).events
    ensures disk.denied == old(disk.denied) && disk.unreadable == old(disk.unreadable)
  {
    var path := ResolvePath(configPath);
    if HasPassword(password) {
      r := SaveEncrypted(disk, p, config, path, password.value, draw, nonce);
      return;
    }
    var ok := disk.WriteFile(path, p.jsonDumpsIndented(config));
    if !ok {
      return Err(ConfigError(WriteDenied(path)));
    }
    ReplaySnoc(old(disk.files), [], Wrote(path, p.jsonDumpsIndented(config)));
    if !Serialisable(config) {
      return Err(ConfigError(IntegerTooLong));
    }
    r := Ok(());
  }

  // ---------------------------------------------------------------------
  // get_api_key, get_user_agent, get_rate_limit

  /** `config[section][service]`, every failure raised as `ConfigError`.
      A section that is not a mapping fails too: `in` and indexing by a
      string raise on everything else, or, for a list or a string that
      happens to contain `service`, the indexing does. */
  function SectionEntry(config: Dict, section: string, service: string): (r: Result<Json>)
    ensures r.Err? ==> r.error.ConfigError?
    ensures section !in Keys(config) ==> r == Err(ConfigError(SectionMissing(section)))
    ensures r.Ok? <==> section in Keys(config) && Lookup(config, section).value.JObj? &&
                       service in Keys(Lookup(config, section).value.entries)
    ensures r.Ok? ==> (section, JObj(Lookup(config, section).value.entries)) in config &&
                      (service, r.value) in Lookup(config, section).value.entries
  {
    match Lookup(config, section)
    case None => Err(ConfigError(SectionMissing(section)))
    case Some(JObj(entries)) =>
      (match Lookup(entries, service)
       case None => Err(ConfigError(ServiceMissing(service)))
       case Some(v) => Ok(v))
    case Some(_) => Err(ConfigError(NotAMapping))
  }

  /** The getters return the stored entry itself. */
  lemma SectionEntryFinds(config: Dict, section: string, entries: Dict, service: string, value: Json)
    requires DistinctKeys(config) && DistinctKeys(entries)
    requires (section, JObj(entries)) in config && (service, value) in entries
    ensures SectionEntry(config, section, service) == Ok(value)
  {
    var i :| 0 <= i < |config| && config[i] == (section, JObj(entries));
    var k :| 0 <= k < |entries| && entries[k] == (service, value);
  }

  /** `get_api_key(config, service)` */
  function GetApiKey(config: Dict, service: string): (r: Result<Json>)
    ensures r.Ok? <==> "api_keys" in Keys(config) && Lookup(config, "api_keys").value.JObj? &&
                       service in Keys(Lookup(config, "api_keys").value.entries)
    ensures r.Err? ==> r.error.ConfigError?
  {
    SectionEntry(config, "api_keys", service)
  }

  /** `get_user_agent(config, service)` */
  function GetUserAgent(config: Dict, service: string): (r: Result<Json>)
    ensures r.Ok? <==> "user_agents" in Keys(config) && Lookup(config, "user_agents").value.JObj? &&
                       service in Keys(Lookup(config, "user_agents").value.entries)
    ensures r.Err? ==> r.error.ConfigError?
  {
    SectionEntry(config, "user_agents", service)
  }

  /** `get_rate_limit(config, service)`, up to the `float()` conversion. */
  function GetRateLimit(config: Dict, service: string): (r: Result<Json>)
    ensures r.Ok? <==> "rate_limits" in Keys(config) && Lookup(config, "rate_limits").value.JObj? &&
                       service in Keys(Lookup(config, "rate_limits").value.entries)
    ensures r.Err? ==> r.error.ConfigError?
  {
    SectionEntry(config, "rate_limits", service)
  }
}
