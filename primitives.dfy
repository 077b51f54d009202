/** The foreign library calls the vault is built from: PBKDF2-HMAC-SHA256
    (RFC 8018, section 5.2), URL-safe base64 (RFC 4648, section 5), Fernet
    authenticated encryption, HMAC-SHA256 (RFC 2104), UTF-8 and the `json`
    module. Their internals are not modelled: each is a function value whose
    only known properties are the ones `Sound` states. */
module Primitives {
  import opened Common
  import opened JsonValue

  const PBKDF2_ITERATIONS: nat := 100000
  const KEY_LENGTH: nat := 32
  const SALT_LENGTH: nat := 16

  /** What `os.urandom(16)` returns. */
  type Salt = s: bytes | |s| == SALT_LENGTH witness [0, 0, 0, 0, 0, 0, 0, 0, 0, 0, 0, 0, 0, 0, 0, 0]

  datatype Primitives = Primitives(
    /** `str.encode()` */
    encodeUtf8: string -> bytes,
    /** `PBKDF2HMAC(SHA256(), length, salt, iterations).derive(password)`,
        arguments (password, salt, iterations, length) */
    pbkdf2Sha256: (bytes, bytes, nat, nat) -> bytes,
    /** `base64.urlsafe_b64encode` */
    urlsafeB64: bytes -> bytes,
    /** `Fernet(key)` accepts `key` rather than raising `ValueError` */
    isFernetKey: bytes -> bool,
    /** `Fernet(key).encrypt(plaintext)`, arguments (key, nonce, plaintext);
        the nonce stands for the random IV and the clock reading a token embeds */
    fernetEncrypt: (bytes, bytes, bytes) -> bytes,
    /** `Fernet(key).decrypt(token)`, or `None` where it raises `InvalidToken` */
    fernetDecrypt: (bytes, bytes) -> Option<bytes>,
    /** `json.dumps(x).encode()`, for a value it can write */
    jsonDumps: Json -> bytes,
    /** what `json.dump(x, f, indent=4)` writes to `f`: the whole value, or
        for one holding an integer too long to write, the text written before
        it raised */
    jsonDumpsIndented: Json -> bytes,
    /** `json.loads(b.decode())` and `json.load(f)`, or `None` where they raise */
    jsonLoads: bytes -> Option<Json>,
    /** `hmac.new(key, msg, hashlib.sha256).hexdigest()`, arguments (key, msg) */
    hmacSha256Hex: (bytes, bytes) -> string
  )

  predicate IsHexDigest(s: string) {
    |s| == 64 && forall i :: 0 <= i < |s| ==> s[i] in "0123456789abcdef"
  }

  /** The properties of the libraries the model relies on. */
  ghost predicate Sound(p: Primitives) {
    // PBKDF2 yields as many bytes as asked for
    && (forall pw, salt :: |p.pbkdf2Sha256(pw, salt, PBKDF2_ITERATIONS, KEY_LENGTH)| == KEY_LENGTH)
    // a base64url-encoded 32-byte string is a Fernet key
    && (forall raw :: |raw| == KEY_LENGTH ==> p.isFernetKey(p.urlsafeB64(raw)))
    // Fernet decryption inverts encryption under the same key, whatever the nonce
    && (forall k, n, m :: p.isFernetKey(k) ==> p.fernetDecrypt(k, p.fernetEncrypt(k, n, m)) == Some(m))
    // parsing inverts both serialisations of a well-formed value
    && (forall j :: WellFormed(j) ==> p.jsonLoads(p.jsonDumps(j)) == Some(j))
    && (forall j :: WellFormed(j) ==> p.jsonLoads(p.jsonDumpsIndented(j)) == Some(j))
    // a hex digest is 64 lower-case hex digits
    && (forall k, m :: IsHexDigest(p.hmacSha256Hex(k, m)))
  }

  /** Where `derive_key` / `generate_key` take the salt from: the caller, or
      `os.urandom(16)` when the caller passes none. */
  datatype SaltSource = Supplied(salt: bytes) | Urandom(draw: Salt)

  /** `base64.urlsafe_b64encode(PBKDF2(password.encode(), salt))`. */
  function PasswordKey(p: Primitives, password: string, salt: bytes): bytes {
    p.urlsafeB64(p.pbkdf2Sha256(p.encodeUtf8(password), salt, PBKDF2_ITERATIONS, KEY_LENGTH))
  }

  /** A password-derived key is always accepted by `Fernet`, whatever the
      password (the empty one included) and whatever the salt. */
  lemma PasswordKeyIsFernetKey(p: Primitives, password: string, salt: bytes)
    requires Sound(p)
    ensures p.isFernetKey(PasswordKey(p, password, salt))
  {
    var raw := p.pbkdf2Sha256(p.encodeUtf8(password), salt, PBKDF2_ITERATIONS, KEY_LENGTH);
    assert |raw| == KEY_LENGTH;
  }
}
