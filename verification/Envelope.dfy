/** Sealed secret values, wrapped data keys and passphrase backups: their byte
    layouts, and which sealed objects open, over an ideal authenticated cipher. */
module Envelope {
  import opened Common

  const KEY_SIZE := 32
  const NONCE_SIZE := 24
  const TAG_SIZE := 16
  const ID_SIZE := 16
  const SALT_SIZE := 16
  const HEADER_SIZE := 5 + 1 + SALT_SIZE + NONCE_SIZE
  const KDF_ARGON2ID_64M: U8 := 1

  type Key = b: Bytes | |b| == 32 witness seq(KEY_SIZE, i => 0)
  type Nonce = b: Bytes | |b| == NONCE_SIZE witness seq(NONCE_SIZE, i => 0)
  type Id = b: Bytes | |b| == ID_SIZE witness seq(ID_SIZE, i => 0)
  type Salt = b: Bytes | |b| == SALT_SIZE witness seq(SALT_SIZE, i => 0)
  type U32 = n: nat | n < 0x1_0000_0000

  datatype CryptoError =
    | AuthTagVerificationFailed
    | InvalidKeyLength(expected: nat, actual: nat)
    | PasswordHashError

  datatype Scope = Scope(tenant: Id, project: Id, environment: Id, secret: Id, version: U32)

  datatype SealedSecret = SealedSecret(nonce: Nonce, ciphertext: Bytes)

  datatype WrappedDek = WrappedDek(kekId: Bytes, nonce: Nonce, blob: Bytes)

  datatype LocalKekService = LocalKekService(kekId: Bytes, kek: Key)

  /** The cipher: encrypt and decrypt take key, nonce, associated data and message. */
  datatype Aead = Aead(
    encrypt: (Key, Nonce, Bytes, Bytes) -> Bytes,
    decrypt: (Key, Nonce, Bytes, Bytes) -> Option<Bytes>)

  /** Passphrase and salt to key; none when the hash refuses its input. */
  type Kdf = (Bytes, Salt) -> Option<Key>

  // ----- layouts

  function Ascii(s: string): (b: Bytes)
    requires forall i :: 0 <= i < |s| ==> s[i] < 128 as char
    ensures |b| == |s| && forall i :: 0 <= i < |s| ==> b[i] == s[i] as int
  {
    seq(|s|, i requires 0 <= i < |s| => s[i] as int)
  }

  function ScopeDomain(): Bytes {
    Ascii("CipherVault-ScopeAAD-v1")
  }

  function WrapDomain(): Bytes {
    Ascii("cv-kek-wrap-v1")
  }

  function BackupMagic(): Bytes {
    Ascii("CVKB1")
  }

  function BigEndian(v: U32): (b: Bytes)
    ensures |b| == 4 && FromBigEndian(b) == v
  {
    var high, low := v / 0x1_0000, v % 0x1_0000;
    [high / 256, high % 256, low / 256, low % 256]
  }

  function FromBigEndian(b: Bytes): nat
    requires |b| == 4
  {
    (b[0] as int * 256 + b[1]) * 0x1_0000 + (b[2] as int * 256 + b[3])
  }

  /** Most significant byte first. */
  lemma {:induction false} BigEndianValue(v: U32)
    ensures var b := BigEndian(v);
            v == 0x100_0000 * (b[0] as int) + 0x1_0000 * (b[1] as int) + 256 * (b[2] as int) + b[3] as int
  {
    hide FromBigEndian;
    var high, low := v / 0x1_0000, v % 0x1_0000;
    assert v == 0x1_0000 * high + low;
    assert high == 256 * (high / 256) + high % 256;
    assert low == 256 * (low / 256) + low % 256;
  }

  function ScopeBytes(s: Scope): Bytes {
    ScopeDomain() + s.tenant + s.project + s.environment + s.secret + BigEndian(s.version)
  }

  function WrapBytes(kekId: Bytes): (b: Bytes)
    ensures |b| == 14 + |kekId| && b[..14] == Ascii("cv-kek-wrap-v1") && b[14..] == kekId
  {
    WrapDomain() + kekId
  }

  function BackupHeader(salt: Salt, nonce: Nonce): (b: Bytes)
    ensures |b| == HEADER_SIZE
  {
    BackupMagic() + [KDF_ARGON2ID_64M] + salt + nonce
  }

  /** The associated data of a scope: 91 bytes, each field at its own fixed place. */
  method ScopeAad(scope: Scope) returns (aad: Bytes)
    ensures |aad| == 91 && aad[..23] == Ascii("CipherVault-ScopeAAD-v1")
    ensures aad[23..39] == scope.tenant && aad[39..55] == scope.project
    ensures aad[55..71] == scope.environment && aad[71..87] == scope.secret
    ensures FromBigEndian(aad[87..]) == scope.version
    ensures aad == ScopeBytes(scope)
  {
    aad := ScopeDomain();
    aad := aad + scope.tenant;
    aad := aad + scope.project;
    aad := aad + scope.environment;
    aad := aad + scope.secret;
    aad := aad + BigEndian(scope.version);
    ScopeFields(scope);
  }

  lemma {:induction false} ScopeFields(s: Scope)
    ensures var b := ScopeBytes(s);
            && |b| == 91 && b[..23] == ScopeDomain()
            && b[23..39] == s.tenant && b[39..55] == s.project
            && b[55..71] == s.environment && b[71..87] == s.secret
            && b[87..] == BigEndian(s.version)
  {
    hide BigEndian, FromBigEndian;
  }

  /** Different scopes have different associated data. */
  lemma {:induction false} ScopeInjective(s: Scope, t: Scope)
    requires ScopeBytes(s) == ScopeBytes(t)
    ensures s == t
  {
    hide ScopeBytes, BigEndian;
    ScopeFields(s);
    ScopeFields(t);
  }

  lemma {:induction false} WrapInjective(k: Bytes, l: Bytes)
    requires WrapBytes(k) == WrapBytes(l)
    ensures k == l
  {
    var n := |WrapDomain()|;
    assert k == WrapBytes(k)[n..] && l == WrapBytes(l)[n..];
  }

  lemma {:induction false} HeaderFields(salt: Salt, nonce: Nonce)
    ensures var b := BackupHeader(salt, nonce);
            b[..5] == BackupMagic() && b[5] == KDF_ARGON2ID_64M && b[6..22] == salt && b[22..] == nonce
  {
  }

  /** The three kinds of associated data never coincide, so one key may serve several of them. */
  lemma {:induction false} DomainsDisjoint(scope: Scope, kekId: Bytes, salt: Salt, nonce: Nonce)
    ensures ScopeBytes(scope) != WrapBytes(kekId)
    ensures ScopeBytes(scope) != BackupHeader(salt, nonce)
    ensures WrapBytes(kekId) != BackupHeader(salt, nonce)
  {
    ScopeFields(scope);
    HeaderFields(salt, nonce);
    assert ScopeBytes(scope)[0] == ScopeDomain()[0] == 'C' as int;
    assert WrapBytes(kekId)[0] == WrapDomain()[0] == 'c' as int;
    assert BackupHeader(salt, nonce)[0] == BackupMagic()[0] == 'C' as int;
  }

  // ----- everything ever sealed

  datatype Issue =
    | Value(key: Key, nonce: Nonce, scope: Scope, plaintext: Bytes)
    | Wrap(key: Key, nonce: Nonce, kekId: Bytes, dek: Key)
    | Backup(key: Key, nonce: Nonce, salt: Salt, plaintext: Bytes)

  function Associated(i: Issue): Bytes {
    match i
    case Value(_, _, scope, _) => ScopeBytes(scope)
    case Wrap(_, _, kekId, _) => WrapBytes(kekId)
    case Backup(_, nonce, salt, _) => BackupHeader(salt, nonce)
  }

  function Message(i: Issue): Bytes {
    match i
    case Value(_, _, _, plaintext) => plaintext
    case Wrap(_, _, _, dek) => dek
    case Backup(_, _, _, plaintext) => plaintext
  }

  function Ciphertext(aead: Aead, i: Issue): Bytes {
    aead.encrypt(i.key, i.nonce, Associated(i), Message(i))
  }

  /** That c under this key, nonce and associated data is what sealing i produced. */
  predicate Produced(aead: Aead, i: Issue, key: Key, nonce: Nonce, aad: Bytes, c: Bytes) {
    i.key == key && i.nonce == nonce && Associated(i) == aad && Ciphertext(aead, i) == c
  }

  /** An ideal cipher: a ciphertext is a tag longer than its message, and it decrypts to p exactly when sealing p, under
      the same key, nonce and associated data, produced it. */
  ghost predicate Ideal(aead: Aead, history: set<Issue>) {
    && (forall i :: i in history ==> |Ciphertext(aead, i)| == |Message(i)| + 16)
    && (forall key: Key, nonce: Nonce, aad, c, p ::
          aead.decrypt(key, nonce, aad, c) == Some(p)
          <==> exists i :: i in history && Produced(aead, i, key, nonce, aad, c) && Message(i) == p)
  }

  /** No key meets the same nonce twice. */
  ghost predicate FreshNonces(history: set<Issue>) {
    forall i, j :: i in history && j in history && i.key == j.key && i.nonce == j.nonce ==> i == j
  }

  // ----- secret values

  function DecryptWithNonce(aead: Aead, key: Key, nonce: Nonce, c: Bytes, aad: Bytes): Result<Bytes, CryptoError> {
    if |c| < TAG_SIZE then Err(AuthTagVerificationFailed)
    else
      match aead.decrypt(key, nonce, aad, c)
      case Some(p) => Ok(p)
      case None => Err(AuthTagVerificationFailed)
  }

  function SealSecretValue(aead: Aead, dek: Key, nonce: Nonce, plaintext: Bytes, aad: Bytes): SealedSecret {
    SealedSecret(nonce, aead.encrypt(dek, nonce, aad, plaintext))
  }

  function OpenSecretValue(aead: Aead, dek: Key, sealed: SealedSecret, aad: Bytes): Result<Bytes, CryptoError> {
    if |sealed.ciphertext| < TAG_SIZE then Err(AuthTagVerificationFailed)
    else DecryptWithNonce(aead, dek, sealed.nonce, sealed.ciphertext, aad)
  }

  /** Decryption succeeds exactly on what was sealed. */
  lemma {:induction false} DecryptsIssued(aead: Aead, history: set<Issue>, key: Key, nonce: Nonce, aad: Bytes,
                                          c: Bytes, p: Bytes)
    requires Ideal(aead, history)
    ensures DecryptWithNonce(aead, key, nonce, c, aad) == Ok(p)
            <==> exists i :: i in history && Produced(aead, i, key, nonce, aad, c) && Message(i) == p
  {
    hide Produced, Message, Ciphertext;
    assert aead.decrypt(key, nonce, aad, c) == Some(p)
           <==> exists i :: i in history && Produced(aead, i, key, nonce, aad, c) && Message(i) == p;
    if i :| i in history && Produced(aead, i, key, nonce, aad, c) && Message(i) == p {
      ProducedLength(aead, history, i, key, nonce, aad, c);
    }
  }

  lemma {:induction false} ProducedLength(aead: Aead, history: set<Issue>, i: Issue, key: Key, nonce: Nonce,
                                          aad: Bytes, c: Bytes)
    requires Ideal(aead, history) && i in history && Produced(aead, i, key, nonce, aad, c)
    ensures |c| >= TAG_SIZE
  {
  }

  /** A sealed value opens to p under a scope exactly when p was sealed for that very scope with this key and nonce, and
      this is the ciphertext it gave: in no history does a ciphertext open under another scope's authority. */
  lemma {:induction false} ValueOpensInItsScope(aead: Aead, history: set<Issue>, dek: Key, sealed: SealedSecret,
                                                scope: Scope, p: Bytes)
    requires Ideal(aead, history)
    ensures OpenSecretValue(aead, dek, sealed, ScopeBytes(scope)) == Ok(p)
            <==> Value(dek, sealed.nonce, scope, p) in history
                 && sealed == SealSecretValue(aead, dek, sealed.nonce, p, ScopeBytes(scope))
  {
    hide Ideal, ScopeBytes, DecryptWithNonce;
    var aad := ScopeBytes(scope);
    DecryptsIssued(aead, history, dek, sealed.nonce, aad, sealed.ciphertext, p);
    var own := Value(dek, sealed.nonce, scope, p);
    if i :| i in history && Produced(aead, i, dek, sealed.nonce, aad, sealed.ciphertext) && Message(i) == p {
      ScopeIssueIsValue(i, scope);
      assert i == own;
    }
    if own in history && sealed == SealSecretValue(aead, dek, sealed.nonce, p, aad) {
      assert Produced(aead, own, dek, sealed.nonce, aad, sealed.ciphertext) && Message(own) == p;
      ProducedLength(aead, history, own, dek, sealed.nonce, aad, sealed.ciphertext);
    }
  }

  lemma {:induction false} ScopeIssueIsValue(i: Issue, scope: Scope)
    requires Associated(i) == ScopeBytes(scope)
    ensures i.Value? && i.scope == scope
  {
    hide ScopeBytes, WrapBytes, BackupHeader;
    match i
    case Value(_, _, other, _) => ScopeInjective(other, scope);
    case Wrap(_, nonce, kekId, _) => DomainsDisjoint(scope, kekId, seq(SALT_SIZE, k => 0), nonce);
    case Backup(_, nonce, salt, _) => DomainsDisjoint(scope, [], salt, nonce);
  }

  /** With fresh nonces, a value opens under its own scope and under no other. */
  lemma {:induction false} CrossScopeFails(aead: Aead, history: set<Issue>, dek: Key, nonce: Nonce, scope: Scope,
                                           p: Bytes, other: Scope)
    requires Ideal(aead, history) && FreshNonces(history) && Value(dek, nonce, scope, p) in history
    ensures var sealed := SealSecretValue(aead, dek, nonce, p, ScopeBytes(scope));
            OpenSecretValue(aead, dek, sealed, ScopeBytes(other))
            == if other == scope then Ok(p) else Err(AuthTagVerificationFailed)
  {
    hide Ideal, ScopeBytes;
    var sealed := SealSecretValue(aead, dek, nonce, p, ScopeBytes(scope));
    ValueOpensInItsScope(aead, history, dek, sealed, scope, p);
    var r := OpenSecretValue(aead, dek, sealed, ScopeBytes(other));
    if r.Ok? {
      ValueOpensInItsScope(aead, history, dek, sealed, other, r.value);
      assert Value(dek, nonce, other, r.value) == Value(dek, nonce, scope, p);
    }
  }

  // ----- wrapped keys

  function WrapDek(aead: Aead, service: LocalKekService, dek: Key, nonce: Nonce): WrappedDek {
    WrappedDek(service.kekId, nonce, aead.encrypt(service.kek, nonce, WrapBytes(service.kekId), dek))
  }

  function UnwrapDek(aead: Aead, service: LocalKekService, wrapped: WrappedDek): Result<Key, CryptoError> {
    if wrapped.kekId != service.kekId then Err(AuthTagVerificationFailed)
    else if |wrapped.blob| < TAG_SIZE then Err(AuthTagVerificationFailed)
    else
      match DecryptWithNonce(aead, service.kek, wrapped.nonce, wrapped.blob, WrapBytes(service.kekId))
      case Err(e) => Err(e)
      case Ok(raw) => if |raw| == KEY_SIZE then Ok(raw) else Err(InvalidKeyLength(KEY_SIZE, |raw|))
  }

  lemma {:induction false} WrapIssueIsWrap(i: Issue, kekId: Bytes)
    requires Associated(i) == WrapBytes(kekId)
    ensures i.Wrap? && i.kekId == kekId
  {
    hide ScopeBytes, WrapBytes, BackupHeader;
    match i
    case Value(_, nonce, scope, _) => DomainsDisjoint(scope, kekId, seq(SALT_SIZE, k => 0), nonce);
    case Wrap(_, _, other, _) => WrapInjective(other, kekId);
    case Backup(_, nonce, salt, _) =>
      var id: Id := seq(ID_SIZE, k => 0);
      DomainsDisjoint(Scope(id, id, id, id, 0), kekId, salt, nonce);
  }

  /** A service unwraps exactly the keys it wrapped itself, each to the key it was; what it refuses it refuses with the
      one authentication error, never for its length. */
  lemma {:induction false} UnwrapsOwnKeysOnly(aead: Aead, history: set<Issue>, service: LocalKekService,
                                              wrapped: WrappedDek, dek: Key)
    requires Ideal(aead, history)
    ensures UnwrapDek(aead, service, wrapped) == Ok(dek)
            <==> Wrap(service.kek, wrapped.nonce, service.kekId, dek) in history
                 && wrapped == WrapDek(aead, service, dek, wrapped.nonce)
    ensures UnwrapDek(aead, service, wrapped).Err? ==>
      UnwrapDek(aead, service, wrapped) == Err(AuthTagVerificationFailed)
  {
    hide Ideal, WrapBytes;
    var aad := WrapBytes(service.kekId);
    var own := Wrap(service.kek, wrapped.nonce, service.kekId, dek);
    var r := DecryptWithNonce(aead, service.kek, wrapped.nonce, wrapped.blob, aad);
    if r.Ok? {
      DecryptsIssued(aead, history, service.kek, wrapped.nonce, aad, wrapped.blob, r.value);
      var i :| i in history && Message(i) == r.value
        && Produced(aead, i, service.kek, wrapped.nonce, aad, wrapped.blob);
      WrapIssueIsWrap(i, service.kekId);
      assert |r.value| == KEY_SIZE;
      assert i == Wrap(service.kek, wrapped.nonce, service.kekId, r.value);
    }
    if own in history && wrapped == WrapDek(aead, service, dek, wrapped.nonce) {
      assert Produced(aead, own, service.kek, wrapped.nonce, aad, wrapped.blob) && Message(own) == dek;
      DecryptsIssued(aead, history, service.kek, wrapped.nonce, aad, wrapped.blob, dek);
      ProducedLength(aead, history, own, service.kek, wrapped.nonce, aad, wrapped.blob);
    }
  }

  /** The whole path: a value sealed under a fresh data key, and that key wrapped, come back as they were. */
  lemma {:induction false} WrappedValueRoundTrip(aead: Aead, history: set<Issue>, service: LocalKekService, dek: Key,
                                                 n1: Nonce, n2: Nonce, scope: Scope, p: Bytes)
    requires Ideal(aead, history)
    requires Value(dek, n1, scope, p) in history && Wrap(service.kek, n2, service.kekId, dek) in history
    ensures var sealed := SealSecretValue(aead, dek, n1, p, ScopeBytes(scope));
            var key := UnwrapDek(aead, service, WrapDek(aead, service, dek, n2));
            key == Ok(dek) && OpenSecretValue(aead, key.value, sealed, ScopeBytes(scope)) == Ok(p)
  {
    hide Ideal, ScopeBytes, WrapBytes, OpenSecretValue, UnwrapDek;
    UnwrapsOwnKeysOnly(aead, history, service, WrapDek(aead, service, dek, n2), dek);
    ValueOpensInItsScope(aead, history, dek, SealSecretValue(aead, dek, n1, p, ScopeBytes(scope)), scope, p);
  }

  // ----- passphrase backups

  function BackupBytes(aead: Aead, key: Key, nonce: Nonce, salt: Salt, plaintext: Bytes): Bytes {
    BackupHeader(salt, nonce) + aead.encrypt(key, nonce, BackupHeader(salt, nonce), plaintext)
  }

  /** Seal under a passphrase: an empty one is refused, and so is one the key derivation refuses. */
  method SealPassphraseBackup(aead: Aead, kdf: Kdf, passphrase: Bytes, plaintext: Bytes, salt: Salt, nonce: Nonce)
    returns (r: Result<Bytes, CryptoError>)
    ensures r.Err? <==> passphrase == [] || kdf(passphrase, salt).None?
    ensures r.Err? ==> r.error == PasswordHashError
    ensures r.Ok? ==> r.value == BackupBytes(aead, kdf(passphrase, salt).value, nonce, salt, plaintext)
    ensures r.Ok? ==>
      && |r.value| >= 46 && r.value[..5] == Ascii("CVKB1") && r.value[5] == 1
      && r.value[6..22] == salt && r.value[22..46] == nonce
      && r.value[46..] == aead.encrypt(kdf(passphrase, salt).value, nonce, r.value[..46], plaintext)
  {
    if passphrase == [] {
      return Err(PasswordHashError);
    }
    var key := kdf(passphrase, salt);
    if key.None? {
      return Err(PasswordHashError);
    }
    var header := BackupMagic();
    header := header + [KDF_ARGON2ID_64M];
    header := header + salt;
    header := header + nonce;
    var ciphertext := aead.encrypt(key.value, nonce, header, plaintext);
    HeaderFields(salt, nonce);
    assert (header + ciphertext)[..46] == header && (header + ciphertext)[46..] == ciphertext;
    header := header + ciphertext;
    r := Ok(header);
  }

  /** Long enough, of the known format and of the known key derivation. */
  predicate Recognised(envelope: Bytes) {
    |envelope| >= 46 + 16 && envelope[..5] == Ascii("CVKB1") && envelope[5] == 1
  }

  function OpenPassphraseBackup(aead: Aead, kdf: Kdf, passphrase: Bytes, envelope: Bytes): Result<Bytes, CryptoError> {
    if passphrase == [] || |envelope| < HEADER_SIZE + TAG_SIZE then Err(AuthTagVerificationFailed)
    else
      var header, ciphertext := envelope[..HEADER_SIZE], envelope[HEADER_SIZE..];
      if header[..5] != BackupMagic() || header[5] != KDF_ARGON2ID_64M then Err(AuthTagVerificationFailed)
      else
        var salt, nonce := header[6..6 + SALT_SIZE], header[6 + SALT_SIZE..HEADER_SIZE];
        match kdf(passphrase, salt)
        case None => Err(PasswordHashError)
        case Some(key) =>
          match DecryptWithNonce(aead, key, nonce, ciphertext, header)
          case Ok(p) => Ok(p)
          case Err(_) => Err(AuthTagVerificationFailed)
  }

  /** A recognised header is determined by the salt and nonce in it. */
  lemma {:induction false} RecognisedHeader(envelope: Bytes)
    requires Recognised(envelope)
    ensures envelope[..HEADER_SIZE] == BackupHeader(envelope[6..22], envelope[22..HEADER_SIZE])
  {
    var h := envelope[..HEADER_SIZE];
    assert h == h[..5] + [h[5]] + h[6..22] + h[22..];
    assert h[..5] == envelope[..5] && h[6..22] == envelope[6..22] && h[22..] == envelope[22..HEADER_SIZE];
  }

  lemma {:induction false} HeaderSlices(envelope: Bytes)
    requires |envelope| >= HEADER_SIZE
    ensures var header := envelope[..HEADER_SIZE];
            && header[..5] == envelope[..5] && header[5] == envelope[5]
            && header[6..6 + SALT_SIZE] == envelope[6..22]
            && header[6 + SALT_SIZE..HEADER_SIZE] == envelope[22..HEADER_SIZE]
  {
  }

  lemma {:induction false} HeaderInjective(s: Salt, n: Nonce, t: Salt, m: Nonce)
    requires BackupHeader(s, n) == BackupHeader(t, m)
    ensures s == t && n == m
  {
    hide BackupHeader;
    HeaderFields(s, n);
    HeaderFields(t, m);
  }

  lemma {:induction false} HeaderIssueIsBackup(i: Issue, salt: Salt, nonce: Nonce)
    requires Associated(i) == BackupHeader(salt, nonce)
    ensures i.Backup? && i.salt == salt && i.nonce == nonce
  {
    hide ScopeBytes, WrapBytes, BackupHeader;
    match i
    case Value(_, _, scope, _) => DomainsDisjoint(scope, [], salt, nonce);
    case Wrap(_, _, kekId, _) =>
      var id: Id := seq(ID_SIZE, k => 0);
      DomainsDisjoint(Scope(id, id, id, id, 0), kekId, salt, nonce);
    case Backup(_, m, t, _) => HeaderInjective(t, m, salt, nonce);
  }

  /** That sealing p under this passphrase, some salt and some nonce happened and gave exactly these bytes. */
  ghost predicate SealedAs(aead: Aead, history: set<Issue>, kdf: Kdf, passphrase: Bytes, envelope: Bytes, p: Bytes) {
    exists key: Key, nonce: Nonce, salt: Salt ::
      Backup(key, nonce, salt, p) in history && kdf(passphrase, salt) == Some(key)
      && envelope == BackupBytes(aead, key, nonce, salt, p)
  }

  /** A backup opens to p under a passphrase exactly when those very bytes were sealed from p under a passphrase with
      the same derived key: altering or cutting any byte leaves bytes that open only if they were sealed themselves. */
  lemma {:induction false} OnlySealedBackupsOpen(aead: Aead, history: set<Issue>, kdf: Kdf, passphrase: Bytes,
                                                 envelope: Bytes, p: Bytes)
    requires Ideal(aead, history)
    ensures OpenPassphraseBackup(aead, kdf, passphrase, envelope) == Ok(p)
            <==> passphrase != [] && SealedAs(aead, history, kdf, passphrase, envelope, p)
  {
    hide Ideal, BackupHeader, OpenPassphraseBackup, SealedAs;
    if OpenPassphraseBackup(aead, kdf, passphrase, envelope) == Ok(p) {
      OpenedWasSealed(aead, history, kdf, passphrase, envelope, p);
    }
    if passphrase != [] && SealedAs(aead, history, kdf, passphrase, envelope, p) {
      SealedOpens(aead, history, kdf, passphrase, envelope, p);
    }
  }

  lemma {:induction false} OpenedWasSealed(aead: Aead, history: set<Issue>, kdf: Kdf, passphrase: Bytes,
                                           envelope: Bytes, p: Bytes)
    requires Ideal(aead, history) && OpenPassphraseBackup(aead, kdf, passphrase, envelope) == Ok(p)
    ensures passphrase != [] && SealedAs(aead, history, kdf, passphrase, envelope, p)
  {
    hide Ideal, BackupHeader, Ascii, DecryptWithNonce;
    var header, c := envelope[..HEADER_SIZE], envelope[HEADER_SIZE..];
    HeaderSlices(envelope);
    RecognisedHeader(envelope);
    var salt, nonce := envelope[6..22], envelope[22..HEADER_SIZE];
    var key := kdf(passphrase, salt).value;
    DecryptsIssued(aead, history, key, nonce, header, c, p);
    var i :| i in history && Produced(aead, i, key, nonce, header, c) && Message(i) == p;
    HeaderIssueIsBackup(i, salt, nonce);
    assert i == Backup(key, nonce, salt, p);
    assert envelope == header + c;
  }

  lemma {:induction false} SealedOpens(aead: Aead, history: set<Issue>, kdf: Kdf, passphrase: Bytes, envelope: Bytes,
                                       p: Bytes)
    requires Ideal(aead, history) && passphrase != [] && SealedAs(aead, history, kdf, passphrase, envelope, p)
    ensures OpenPassphraseBackup(aead, kdf, passphrase, envelope) == Ok(p)
  {
    hide Ideal, BackupHeader, Ascii, DecryptWithNonce;
    var key: Key, nonce: Nonce, salt: Salt :|
      Backup(key, nonce, salt, p) in history && kdf(passphrase, salt) == Some(key)
      && envelope == BackupBytes(aead, key, nonce, salt, p);
    var header := BackupHeader(salt, nonce);
    HeaderFields(salt, nonce);
    assert header[6 + SALT_SIZE..HEADER_SIZE] == nonce;
    var own := Backup(key, nonce, salt, p);
    var c := Ciphertext(aead, own);
    assert envelope[..HEADER_SIZE] == header && envelope[HEADER_SIZE..] == c;
    assert Produced(aead, own, key, nonce, header, c) && Message(own) == p;
    ProducedLength(aead, history, own, key, nonce, header, c);
    DecryptsIssued(aead, history, key, nonce, header, c, p);
  }

  /** Every failure to open is the same authentication error, except when a recognised envelope's key derivation itself
      refuses the passphrase: that one error is different. */
  lemma {:induction false} FailuresUniform(aead: Aead, kdf: Kdf, passphrase: Bytes, envelope: Bytes)
    ensures var r := OpenPassphraseBackup(aead, kdf, passphrase, envelope);
            r.Err? && r.error != AuthTagVerificationFailed
            <==> passphrase != [] && Recognised(envelope) && kdf(passphrase, envelope[6..22]).None?
  {
    hide Ascii, DecryptWithNonce;
    if |envelope| >= HEADER_SIZE + TAG_SIZE {
      HeaderSlices(envelope);
    }
  }

  /** The longest passphrase Argon2 takes (section 3.1 of RFC 9106). */
  const MAX_PASSPHRASE := 0xFFFF_FFFF

  /** A key derivation that refuses exactly the passphrases Argon2 has no room for. */
  ghost predicate RefusesOverlong(kdf: Kdf) {
    forall passphrase, salt: Salt :: kdf(passphrase, salt).None? <==> |passphrase| > MAX_PASSPHRASE
  }

  /** For Argon2 the different error is exactly that of an overlong passphrase on a recognised envelope. */
  lemma {:induction false} OnlyOverlongDiffers(aead: Aead, kdf: Kdf, passphrase: Bytes, envelope: Bytes)
    requires RefusesOverlong(kdf)
    ensures var r := OpenPassphraseBackup(aead, kdf, passphrase, envelope);
            r.Err? && r.error != AuthTagVerificationFailed
            <==> |passphrase| > MAX_PASSPHRASE && Recognised(envelope)
  {
    hide OpenPassphraseBackup, Recognised;
    FailuresUniform(aead, kdf, passphrase, envelope);
    if Recognised(envelope) {
      RecognisedLength(envelope);
      assert kdf(passphrase, envelope[6..22]).None? <==> |passphrase| > MAX_PASSPHRASE;
    }
  }

  lemma {:induction false} RecognisedLength(envelope: Bytes)
    requires Recognised(envelope)
    ensures |envelope| >= HEADER_SIZE
  {
  }

  /** Such an input: 2^32 zero bytes as passphrase, on any salt and nonce followed by sixteen zero bytes. */
  lemma {:induction false} OverlongPassphraseShows(aead: Aead, kdf: Kdf, salt: Salt, nonce: Nonce)
    requires RefusesOverlong(kdf)
    ensures var passphrase, envelope := seq(0x1_0000_0000, i => 0), BackupHeader(salt, nonce) + seq(TAG_SIZE, i => 0);
            OpenPassphraseBackup(aead, kdf, passphrase, envelope) == Err(PasswordHashError)
  {
    var passphrase, envelope := seq(0x1_0000_0000, i => 0), BackupHeader(salt, nonce) + seq(TAG_SIZE, i => 0);
    HeaderFields(salt, nonce);
    hide BackupHeader, Ascii, DecryptWithNonce;
    var header := envelope[..HEADER_SIZE];
    assert header == BackupHeader(salt, nonce);
    assert header[6..6 + SALT_SIZE] == salt;
    assert kdf(passphrase, salt).None?;
  }
}
