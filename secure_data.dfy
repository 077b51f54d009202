/** The secure-data vault: key derivation, Fernet encryption of a JSON
    payload, saving the salt to `{path}.salt` and the token to `{path}`
    itself, loading them back, and the HMAC integrity check. */
module SecureData {
  import opened Common
  import opened JsonValue
  import opened Primitives
  import opened FileSystem

  const INTEGRITY_KEY_VAR := "DATA_INTEGRITY_KEY"

  function SaltPath(path: string): string {
    path + ".salt"
  }

  /** `derive_key(password, salt)`: the key and the salt it was derived with.
      There is no check on the password: the empty one is accepted. */
  function DeriveKey(p: Primitives, password: string, source: SaltSource): (r: (bytes, bytes))
    ensures source.Supplied? ==> r.1 == source.salt
    ensures source.Urandom? ==> r.1 == source.draw && |r.1| == SALT_LENGTH
    ensures r.0 == PasswordKey(p, password, r.1)
  {
    var salt := match source case Supplied(s) => s case Urandom(d) => d;
    (PasswordKey(p, password, salt), salt)
  }

  /** The key depends on the password and the salt only: a salt drawn at
      random when saving re-derives the same key when it is supplied back. */
  lemma DeriveKeyDeterministic(p: Primitives, password: string, draw: Salt)
    ensures DeriveKey(p, password, Supplied(DeriveKey(p, password, Urandom(draw)).1)) ==
            DeriveKey(p, password, Urandom(draw))
  {
  }

  /** `encrypt_data(data, key)`: Fernet over `json.dumps(data)`. `Fernet(key)`
      is built first, so a refused key is reported before an integer too
      long to write. */
  function EncryptData(p: Primitives, data: Json, key: bytes, nonce: bytes): (r: Result<bytes>)
    ensures r.Err? <==> !p.isFernetKey(key) || !Serialisable(data)
    ensures !p.isFernetKey(key) ==> r == Err(SecureDataError(InvalidKey))
    ensures p.isFernetKey(key) && !Serialisable(data) ==> r == Err(SecureDataError(IntegerTooLong))
    ensures r.Ok? ==> r.value == p.fernetEncrypt(key, nonce, p.jsonDumps(data))
  {
    if !p.isFernetKey(key) then Err(SecureDataError(InvalidKey))
    else if !Serialisable(data) then Err(SecureDataError(IntegerTooLong))
    else Ok(p.fernetEncrypt(key, nonce, p.jsonDumps(data)))
  }

  /** `decrypt_data(encrypted_data, key)`: every failure (a key Fernet
      refuses, a token that does not authenticate, bytes that are not JSON)
      surfaces as `SecureDataError`. */
  function DecryptData(p: Primitives, token: bytes, key: bytes): (r: Result<Json>)
    ensures r.Err? ==> r.error.SecureDataError?
    ensures r.Ok? ==> p.isFernetKey(key) && p.fernetDecrypt(key, token).Some? &&
                      p.jsonLoads(p.fernetDecrypt(key, token).value) == Some(r.value)
  {
    if !p.isFernetKey(key) then Err(SecureDataError(InvalidKey))
    else match p.fernetDecrypt(key, token)
      case None => Err(SecureDataError(InvalidToken))
      case Some(plain) =>
        match p.jsonLoads(plain)
        case None => Err(SecureDataError(InvalidJson))
        case Some(j) => Ok(j)
  }

  /** Decryption with the encrypting key returns the payload. */
  lemma EncryptDecrypt(p: Primitives, data: Json, key: bytes, nonce: bytes)
    requires Sound(p) && WellFormed(data) && p.isFernetKey(key)
    ensures EncryptData(p, data, key, nonce).Ok?
    ensures DecryptData(p, EncryptData(p, data, key, nonce).value, key) == Ok(data)
  {
    WellFormedSerialisable(data);
    var plain := p.jsonDumps(data);
    assert p.fernetDecrypt(key, p.fernetEncrypt(key, nonce, plain)) == Some(plain);
    assert p.jsonLoads(plain) == Some(data);
  }

  // ---------------------------------------------------------------------
  // secure_save / secure_load

  /** What `secure_save(data, path, password)` does when `os.urandom`
      yields `draw` and Fernet uses `nonce`: derive a key from a fresh
      salt, encrypt, write the salt to `{path}.salt`, then the token to
      `{path}`. */
  function SecureSaveRun(p: Primitives, denied: set<string>, data: Json, path: string,
                         password: string, draw: Salt, nonce: bytes): (r: Run<()>)
    ensures r.result.Err? ==> r.result.error.SecureDataError?
    // only the two vault files are written, the salt first, and it is the fresh draw
    ensures |r.events| <= 2
    ensures forall i :: 0 <= i < |r.events| ==> r.events[i].Wrote? &&
                                                 r.events[i].path == [SaltPath(path), path][i]
    ensures |r.events| >= 1 ==> r.events[0].data == draw && |r.events[0].data| == SALT_LENGTH
    ensures r.result.Ok? <==> |r.events| == 2
    // the token written to `{path}` is the payload encrypted under the key
    // derived from the fresh salt; encryption fails before anything is written
    ensures var token := EncryptData(p, data, DeriveKey(p, password, Urandom(draw)).0, nonce);
            && (token.Err? ==> r == Run(Err(token.error), []))
            && (|r.events| == 2 ==> token.Ok? && r.events[1].data == token.value)
    // a denied write stops the save at that write
    ensures var token := EncryptData(p, data, DeriveKey(p, password, Urandom(draw)).0, nonce);
            token.Ok? ==>
              && (SaltPath(path) in denied ==> r == Run(Err(SecureDataError(WriteDenied(SaltPath(path)))), []))
              && (SaltPath(path) !in denied && path in denied ==>
                    r == Run(Err(SecureDataError(WriteDenied(path))), [Wrote(SaltPath(path), draw)]))
              && (SaltPath(path) !in denied && path !in denied ==> r.result == Ok(()))
  {
    var (key, salt) := DeriveKey(p, password, Urandom(draw));
    var token := EncryptData(p, data, key, nonce);
    if token.Err? then Run(Err(token.error), [])
    else if SaltPath(path) in denied then Run(Err(SecureDataError(WriteDenied(SaltPath(path)))), [])
    else if path in denied then Run(Err(SecureDataError(WriteDenied(path))), [Wrote(SaltPath(path), salt)])
    else Run(Ok(()), [Wrote(SaltPath(path), salt), Wrote(path, token.value)])
  }

  /** What `secure_load(path, password)` does on `files`, where the paths in
      `unreadable` exist but cannot be opened for reading. */
  function SecureLoadRun(p: Primitives, files: map<string, bytes>, unreadable: set<string>,
                         path: string, password: string): (r: Run<Json>)
    ensures r.result.Err? ==> r.result.error.SecureDataError?
    // only reads, and the salt is looked for before anything is opened
    ensures forall i :: 0 <= i < |r.events| ==> r.events[i].Read?
    ensures SaltPath(path) !in files ==> r == Run(Err(SecureDataError(SaltFileMissing)), [])
    ensures SaltPath(path) in files && SaltPath(path) in unreadable ==>
              r == Run(Err(SecureDataError(ReadDenied(SaltPath(path)))), [Read(SaltPath(path))])
    ensures SaltPath(path) in files && SaltPath(path) !in unreadable ==>
              && r.events == [Read(SaltPath(path)), Read(path)]
              && (path !in files ==> r.result == Err(SecureDataError(FileMissing(path))))
              && (path in files && path in unreadable ==> r.result == Err(SecureDataError(ReadDenied(path))))
    // with both files readable, the result is decrypting the token under
    // the key derived from the stored salt
    ensures SaltPath(path) in files && SaltPath(path) !in unreadable && path in files && path !in unreadable ==>
              r.result == DecryptData(p, files[path], DeriveKey(p, password, Supplied(files[SaltPath(path)])).0)
  {
    if SaltPath(path) !in files then Run(Err(SecureDataError(SaltFileMissing)), [])
    else if SaltPath(path) in unreadable then
      Run(Err(SecureDataError(ReadDenied(SaltPath(path)))), [Read(SaltPath(path))])
    else
      var (key, _) := DeriveKey(p, password, Supplied(files[SaltPath(path)]));
      var events := [Read(SaltPath(path)), Read(path)];
      if path !in files then Run(Err(SecureDataError(FileMissing(path))), events)
      else if path in unreadable then Run(Err(SecureDataError(ReadDenied(path))), events)
      else Run(DecryptData(p, files[path], key), events)
  }

  /** Round trip: what `secure_save` wrote, `secure_load` with the same
      password returns, whatever was on disk before, unless one of the two
      files cannot be opened for reading. */
  lemma SecureRoundTrip(p: Primitives, files: map<string, bytes>, denied: set<string>, unreadable: set<string>,
                        data: Json, path: string, password: string, draw: Salt, nonce: bytes)
    requires Sound(p) && WellFormed(data)
    requires SaltPath(path) !in denied && path !in denied
    ensures SecureSaveRun(p, denied, data, path, password, draw, nonce).result == Ok(())
    ensures SecureLoadRun(p, Replay(files, SecureSaveRun(p, denied, data, path, password, draw, nonce).events),
                          unreadable, path, password).result ==
            (if SaltPath(path) in unreadable then Err(SecureDataError(ReadDenied(SaltPath(path))))
             else if path in unreadable then Err(SecureDataError(ReadDenied(path)))
             else Ok(data))
  {
    var key := PasswordKey(p, password, draw);
    PasswordKeyIsFernetKey(p, password, draw);
    EncryptDecrypt(p, data, key, nonce);
    var token := EncryptData(p, data, key, nonce).value;
    var save := SecureSaveRun(p, denied, data, path, password, draw, nonce);
    assert save.events == [Wrote(SaltPath(path), draw), Wrote(path, token)];
    var after := Replay(files, save.events);
    assert path != SaltPath(path) by { assert |SaltPath(path)| != |path|; }
    assert after == files[SaltPath(path) := draw][path := token] by {
      ReplaySnoc(files, [], Wrote(SaltPath(path), draw));
      ReplaySnoc(files, [Wrote(SaltPath(path), draw)], Wrote(path, token));
    }
  }

  /** `secure_save` step by step on a disk. */
  method SecureSave(disk: Disk, p: Primitives, data: Json, path: string, password: string,
                    draw: Salt, nonce: bytes) returns (r: Result<()>)
    modifies disk
    ensures r == SecureSaveRun(p, old(disk.denied), data, path, password, draw, nonce).result
    ensures disk.files == Replay(old(disk.files), SecureSaveRun(p, old(disk.denied), data, path, password, draw, nonce).events)
    ensures disk.trace == old(disk.trace) + SecureSaveRun(p, old(disk.denied), data, path, password, draw, nonce).events
    ensures disk.denied == old(disk.denied) && disk.unreadable == old(disk.unreadable)
  {
    var (key, salt) := DeriveKey(p, password, Urandom(draw));
    var token := EncryptData(p, data, key, nonce);
    if token.Err? {
      return Err(token.error);
    }
    var ok := disk.WriteFile(SaltPath(path), salt);
    if !ok {
      return Err(SecureDataError(WriteDenied(SaltPath(path))));
    }
    ReplaySnoc(old(disk.files), [], Wrote(SaltPath(path), salt));
    ReplaySnoc(old(disk.files), [Wrote(SaltPath(path), salt)], Wrote(path, token.value));
    ok := disk.WriteFile(path, token.value);
    if !ok {
      return Err(SecureDataError(WriteDenied(path)));
    }
    r := Ok(());
  }

  /** `secure_load` step by step on a disk. */
  method SecureLoad(disk: Disk, p: Primitives, path: string, password: string) returns (r: Result<Json>)
    modifies disk`trace
    ensures r == SecureLoadRun(p, disk.files, disk.unreadable, path, password).result
    ensures disk.trace == old(disk.trace) + SecureLoadRun(p, disk.files, disk.unreadable, path, password).events
  {
    if !disk.Exists(SaltPath(path)) {
      return Err(SecureDataError(SaltFileMissing));
    }
    var salt := disk.ReadFile(SaltPath(path));
    if salt.Err? {
      return Err(SecureDataError(salt.error.reason));
    }
    var (key, _) := DeriveKey(p, password, Supplied(salt.value));
    var token := disk.ReadFile(path);
    if token.Err? {
      return Err(SecureDataError(token.error.reason));
    }
    r := DecryptData(p, token.value, key);
  }

  // ---------------------------------------------------------------------
  // verify_data_integrity

  /** The hex HMAC-SHA256, keyed by `secret`, of `json.dumps(data, sort_keys=True)`. */
  function Signature(p: Primitives, secret: string, data: Json): string {
    p.hmacSha256Hex(p.encodeUtf8(secret), p.jsonDumps(Canonical(data)))
  }

  /** `verify_data_integrity(data, signature)` with the process environment
      `env`. `json.dumps` raises on an integer too long to write, and
      `hmac.compare_digest` on two `str` raises `TypeError` unless both are
      ASCII; the `except` clause turns both into `SecureDataError`. */
  function VerifyDataIntegrity(p: Primitives, env: map<string, string>, data: Json, signature: string): (r: Result<bool>)
    ensures r.Err? ==> r.error.SecureDataError?
    ensures INTEGRITY_KEY_VAR !in env || env[INTEGRITY_KEY_VAR] == "" ==>
              r == Err(SecureDataError(SecretUnset(INTEGRITY_KEY_VAR)))
    ensures INTEGRITY_KEY_VAR in env && env[INTEGRITY_KEY_VAR] != "" && !Serialisable(Canonical(data)) ==>
              r == Err(SecureDataError(IntegerTooLong))
    ensures INTEGRITY_KEY_VAR in env && env[INTEGRITY_KEY_VAR] != "" && Serialisable(Canonical(data)) &&
              !IsAsciiString(signature) ==>
              r == Err(SecureDataError(NonAsciiDigest))
    ensures r == Ok(true) ==> signature == Signature(p, env[INTEGRITY_KEY_VAR], data)
  {
    if INTEGRITY_KEY_VAR !in env || env[INTEGRITY_KEY_VAR] == "" then
      Err(SecureDataError(SecretUnset(INTEGRITY_KEY_VAR)))
    else if !Serialisable(Canonical(data)) then Err(SecureDataError(IntegerTooLong))
    else
      var computed := Signature(p, env[INTEGRITY_KEY_VAR], data);
      if !IsAsciiString(computed) || !IsAsciiString(signature) then Err(SecureDataError(NonAsciiDigest))
      else Ok(computed == signature)
  }

  /** With the key set, the check accepts exactly the signature computed
      over the key-sorted payload, unless the payload holds an integer too
      long to write. */
  lemma VerifyAcceptsExactly(p: Primitives, env: map<string, string>, data: Json, signature: string)
    requires Sound(p)
    requires INTEGRITY_KEY_VAR in env && env[INTEGRITY_KEY_VAR] != ""
    requires IsAsciiString(signature)
    ensures VerifyDataIntegrity(p, env, data, signature) ==
            (if Serialisable(data) then Ok(signature == Signature(p, env[INTEGRITY_KEY_VAR], data))
             else Err(SecureDataError(IntegerTooLong)))
  {
    CanonicalSerialisable(data);
    var computed := Signature(p, env[INTEGRITY_KEY_VAR], data);
    assert IsHexDigest(computed);
    assert IsAsciiString(computed) by {
      forall i | 0 <= i < |computed| ensures IsAscii(computed[i]) {
        assert computed[i] in "0123456789abcdef";
      }
    }
  }

  /** The check does not depend on the order the payload's keys were
      inserted in. */
  lemma VerifyIgnoresKeyOrder(p: Primitives, env: map<string, string>, d1: Dict, d2: Dict, signature: string)
    requires DistinctKeys(d1) && multiset(d1) == multiset(d2)
    ensures VerifyDataIntegrity(p, env, JObj(d1), signature) == VerifyDataIntegrity(p, env, JObj(d2), signature)
  {
    CanonicalIgnoresOrder(d1, d2);
  }
}
