/** The on-disk keystore: a seed wrapped under a passphrase, an imported identity key
    wrapped beside it, and the passphrase change that re-wraps both or neither.

    Argon2 and the AEAD are ideal: a key is a term built from what it was derived
    from, a ciphertext a term built from what was sealed, and opening succeeds for
    exactly the key, nonce and role that sealed. */
module Keystore {
  import opened Basics
  import opened Disk

  datatype Account = Identity | Ghost | Anchor | Data | SignerChannel

  const ACCOUNTS: seq<Account> := [Identity, Ghost, Anchor, Data, SignerChannel]

  type Secret = Bytes
  type PublicKey = Bytes

  datatype Params = Params(memoryKib: u32, iterations: u32, lanes: u32)

  datatype Kek = Kek(passphrase: Bytes, salt: Bytes, params: Params)

  /** The associated data each wrapping is bound to. */
  datatype Role = SeedRole | IdentityRole

  datatype Ciphertext = Ciphertext(key: Kek, nonce: Bytes, role: Role, plaintext: Bytes)

  datatype Wrapped = Wrapped(ciphertext: Ciphertext, nonce: Bytes, salt: Bytes, params: Params)

  datatype DekSource = FromIdentity | FromVaultData

  datatype IdentitySource = FromSeed | ImportedNsec

  datatype KeystoreFile = KeystoreFile(
    version: u32, seed: Wrapped, identityPubkey: PublicKey,
    dekSource: DekSource, identitySource: IdentitySource, identityKey: Option<Wrapped>)

  const KEYSTORE_VERSION: u32 := 2

  datatype KeyError = BadPassphrase | Backend | InvalidDerivationPath | InvalidPublicKey | Locked

  datatype DerivedKey = DerivedKey(account: Account, secret: Secret, public: PublicKey)

  datatype Unlocked = Unlocked(keys: seq<DerivedKey>, dek: Bytes)

  /** The curve, the derivation tree, and what Argon2 accepts. */
  datatype World = World(
    accepts: Params -> bool,
    derive: (Bytes, Account) -> Option<Secret>,
    usable: Secret -> bool,
    public: Secret -> PublicKey,
    expand: Secret -> Bytes)

  // --- wrapping -------------------------------------------------------------------------------

  datatype RawEntropy = RawEntropy(salt: Bytes, seedNonce: Bytes, identityNonce: Bytes)

  /** Two secrets under one key never share a nonce. */
  type WrapEntropy = e: RawEntropy | e.seedNonce != e.identityNonce
    witness RawEntropy([], [0], [1])

  function NewEntropy(salt: Bytes, seedNonce: Bytes, identityNonce: Bytes): Result<WrapEntropy, KeyError> {
    if seedNonce == identityNonce then Err(Backend) else Ok(RawEntropy(salt, seedNonce, identityNonce))
  }

  /** `memory` says whether Argon2 got what it asked for. */
  function DeriveKek(w: World, passphrase: Bytes, salt: Bytes, params: Params, memory: bool): Result<Kek, KeyError> {
    if w.accepts(params) && memory then Ok(Kek(passphrase, salt, params)) else Err(Backend)
  }

  function Wrap(kek: Kek, secret: Bytes, nonce: Bytes, role: Role): Wrapped {
    Wrapped(Ciphertext(kek, nonce, role, secret), nonce, kek.salt, kek.params)
  }

  function SizeOf(role: Role): nat {
    match role
    case SeedRole => 64
    case IdentityRole => 32
  }

  function Unwrap(kek: Kek, wrapped: Wrapped, role: Role): Result<Bytes, KeyError> {
    var c := wrapped.ciphertext;
    if c.key == kek && c.nonce == wrapped.nonce && c.role == role && |c.plaintext| == SizeOf(role) then Ok(c.plaintext)
    else Err(BadPassphrase)
  }

  // --- keys -------------------------------------------------------------------------------------

  function DeriveAccount(w: World, seed: Bytes, account: Account): Result<DerivedKey, KeyError> {
    match w.derive(seed, account)
    case None => Err(InvalidDerivationPath)
    case Some(secret) => Ok(DerivedKey(account, secret, w.public(secret)))
  }

  function FromSecret(w: World, secret: Secret): Result<DerivedKey, KeyError> {
    if w.usable(secret) then Ok(DerivedKey(Identity, secret, w.public(secret))) else Err(InvalidPublicKey)
  }

  function DeriveAll(w: World, seed: Bytes, accounts: seq<Account>): (r: Result<seq<DerivedKey>, KeyError>)
    ensures r.Ok? ==> |r.value| == |accounts| && forall i :: 0 <= i < |accounts| ==> r.value[i].account == accounts[i]
  {
    if accounts == [] then Ok([])
    else
      match DeriveAll(w, seed, accounts[..|accounts| - 1])
      case Err(e) => Err(e)
      case Ok(before) =>
        match DeriveAccount(w, seed, accounts[|accounts| - 1])
        case Err(e) => Err(e)
        case Ok(key) => Ok(before + [key])
  }

  function WithIdentity(keys: seq<DerivedKey>, identity: DerivedKey): (out: seq<DerivedKey>)
    ensures |out| == |keys|
  {
    seq(|keys|, i requires 0 <= i < |keys| => if keys[i].account == Identity then identity else keys[i])
  }

  function Find(keys: seq<DerivedKey>, account: Account): Result<DerivedKey, KeyError> {
    if keys == [] then Err(InvalidDerivationPath)
    else if keys[0].account == account then Ok(keys[0])
    else Find(keys[1..], account)
  }

  /** The secrets a vault holds: its seed, and the identity key it imported if it did. */
  datatype Secrets = Secrets(seed: Bytes, imported: Option<Secret>)

  /** The five account keys: the seed's, with an imported identity in place of its own. */
  function KeysOf(w: World, s: Secrets): Result<seq<DerivedKey>, KeyError> {
    match DeriveAll(w, s.seed, ACCOUNTS)
    case Err(e) => Err(e)
    case Ok(keys) =>
      match s.imported
      case None => Ok(keys)
      case Some(secret) =>
        match FromSecret(w, secret)
        case Err(e) => Err(e)
        case Ok(identity) => Ok(WithIdentity(keys, identity))
  }

  function Unsealed(w: World, keys: seq<DerivedKey>, pubkey: PublicKey, source: DekSource): Result<Unlocked, KeyError> {
    match Find(keys, Identity)
    case Err(e) => Err(e)
    case Ok(identity) =>
      if identity.public != pubkey then Err(Backend)
      else
        match source
        case FromIdentity => Ok(Unlocked(keys, w.expand(identity.secret)))
        case FromVaultData =>
          match Find(keys, Data)
          case Err(e) => Err(e)
          case Ok(data) => Ok(Unlocked(keys, w.expand(data.secret)))
  }

  /** What unlocking secrets yields, whatever wraps them. */
  function Yields(w: World, s: Secrets, pubkey: PublicKey, source: DekSource): Result<Unlocked, KeyError> {
    match KeysOf(w, s)
    case Err(e) => Err(e)
    case Ok(keys) => Unsealed(w, keys, pubkey, source)
  }

  function UnwrapIdentity(kek: Kek, file: KeystoreFile): Result<Option<Secret>, KeyError> {
    match file.identitySource
    case FromSeed => Ok(None)
    case ImportedNsec =>
      match file.identityKey
      case None => Err(Backend)
      case Some(wrapped) =>
        match Unwrap(kek, wrapped, IdentityRole)
        case Err(e) => Err(e)
        case Ok(secret) => Ok(Some(secret))
  }

  function OpenedWith(w: World, kek: Kek, file: KeystoreFile): Result<Unlocked, KeyError> {
    match Unwrap(kek, file.seed, SeedRole)
    case Err(e) => Err(e)
    case Ok(seed) =>
      match DeriveAll(w, seed, ACCOUNTS)
      case Err(e) => Err(e)
      case Ok(_) =>
        match UnwrapIdentity(kek, file)
        case Err(e) => Err(e)
        case Ok(imported) => Yields(w, Secrets(seed, imported), file.identityPubkey, file.dekSource)
  }

  function Opened(w: World, file: KeystoreFile, passphrase: Bytes, memory: bool): Result<Unlocked, KeyError> {
    match DeriveKek(w, passphrase, file.seed.salt, file.seed.params, memory)
    case Err(e) => Err(e)
    case Ok(kek) => OpenedWith(w, kek, file)
  }

  // --- creating and re-wrapping -----------------------------------------------------------------------

  function Created(w: World, seed: Bytes, passphrase: Bytes, salt: Bytes, nonce: Bytes, params: Params, memory: bool)
    : Result<KeystoreFile, KeyError>
  {
    match DeriveAccount(w, seed, Identity)
    case Err(e) => Err(e)
    case Ok(identity) =>
      match DeriveKek(w, passphrase, salt, params, memory)
      case Err(e) => Err(e)
      case Ok(kek) =>
        Ok(KeystoreFile(KEYSTORE_VERSION, Wrap(kek, seed, nonce, SeedRole), identity.public, FromVaultData, FromSeed,
            None))
  }

  function CreatedWithNsec(w: World, secret: Secret, seed: Bytes, passphrase: Bytes, entropy: WrapEntropy,
                           params: Params, memory: bool)
    : Result<KeystoreFile, KeyError>
  {
    match FromSecret(w, secret)
    case Err(e) => Err(e)
    case Ok(identity) =>
      match DeriveKek(w, passphrase, entropy.salt, params, memory)
      case Err(e) => Err(e)
      case Ok(kek) =>
        Ok(KeystoreFile(KEYSTORE_VERSION, Wrap(kek, seed, entropy.seedNonce, SeedRole), identity.public, FromVaultData,
                        ImportedNsec, Some(Wrap(kek, secret, entropy.identityNonce, IdentityRole))))
  }

  /** What the machine does during one change: memory for either derivation, the
      encoder, the disk. */
  datatype Io = Io(memoryOld: bool, memoryNew: bool, encodes: bool, failure: Option<Failure>)

  function Rewrapped(w: World, file: KeystoreFile, old_: Bytes, new_: Bytes, entropy: WrapEntropy, io: Io)
    : Result<KeystoreFile, KeyError>
  {
    match DeriveKek(w, old_, file.seed.salt, file.seed.params, io.memoryOld)
    case Err(e) => Err(e)
    case Ok(oldKek) =>
      match Unwrap(oldKek, file.seed, SeedRole)
      case Err(e) => Err(e)
      case Ok(seed) =>
        match UnwrapIdentity(oldKek, file)
        case Err(e) => Err(e)
        case Ok(imported) =>
          match DeriveKek(w, new_, entropy.salt, file.seed.params, io.memoryNew)
          case Err(e) => Err(e)
          case Ok(newKek) =>
            if !io.encodes then Err(Backend)
            else
              var updated := file.(seed := Wrap(newKek, seed, entropy.seedNonce, SeedRole));
              Ok(if imported.None? then updated
                 else updated.(identityKey := Some(Wrap(newKek, imported.value, entropy.identityNonce, IdentityRole))))
  }

  class FileKeystore {
    const volume: Volume<KeystoreFile>
    var file: KeystoreFile
    var unlocked: Option<Unlocked>

    /** The volume is in order and holds the file this object has in memory. */
    ghost predicate Valid()
      reads this, volume
    {
      WellNamed(volume.disk) && Settled(volume.disk) && Main(volume.disk) == Some(Whole(file))
    }

    constructor (volume: Volume<KeystoreFile>, file: KeystoreFile)
      ensures this.volume == volume && this.file == file && unlocked == None
    {
      this.volume, this.file, this.unlocked := volume, file, None;
    }

    method Unlock(w: World, passphrase: Bytes, memory: bool) returns (r: Result<(), KeyError>)
      modifies this`unlocked
      ensures match Opened(w, file, passphrase, memory)
        case Ok(u) => r == Ok(()) && unlocked == Some(u)
        case Err(e) => r == Err(e) && unlocked == old(unlocked)
    {
      hide Find, DeriveAccount, FromSecret, Unwrap;
      var kek := DeriveKek(w, passphrase, file.seed.salt, file.seed.params, memory);
      if kek.Err? {
        return Err(kek.error);
      }
      var seed := Unwrap(kek.value, file.seed, SeedRole);
      if seed.Err? {
        return Err(seed.error);
      }
      var derived := DeriveAll(w, seed.value, ACCOUNTS);
      if derived.Err? {
        return Err(derived.error);
      }
      var keys := derived.value;
      if file.identitySource == ImportedNsec {
        if file.identityKey.None? {
          return Err(Backend);
        }
        var secret := Unwrap(kek.value, file.identityKey.value, IdentityRole);
        if secret.Err? {
          return Err(secret.error);
        }
        assert keys[0].account == Identity;
        var replaced := ReplaceIdentity(w, keys, secret.value);
        if replaced.Err? {
          return Err(replaced.error);
        }
        keys := replaced.value;
      }
      var identity := Find(keys, Identity);
      if identity.Err? {
        return Err(identity.error);
      }
      if identity.value.public != file.identityPubkey {
        return Err(Backend);
      }
      var owner := if file.dekSource == FromIdentity then identity else Find(keys, Data);
      if owner.Err? {
        return Err(owner.error);
      }
      unlocked := Some(Unlocked(keys, w.expand(owner.value.secret)));
      return Ok(());
    }

    method Lock()
      modifies this`unlocked
      ensures unlocked == None
    {
      unlocked := None;
    }

    /** Re-wraps everything under the new passphrase and replaces the file, or changes
        nothing: not the file in memory, not the one on disk. */
    method ChangePassphrase(w: World, old_: Bytes, new_: Bytes, entropy: WrapEntropy, io: Io)
      returns (r: Result<(), KeyError>)
      requires Valid()
      modifies this`file, volume
      ensures Valid()
      ensures var rewrapped := Rewrapped(w, old(file), old_, new_, entropy, io);
        && (r.Ok? <==> rewrapped.Ok? && (io.failure.None? || io.failure.value.AtDirectory?))
        && (rewrapped.Err? ==> r == Err(rewrapped.error))
        && file == if r.Ok? then rewrapped.value else old(file)
      ensures unlocked == old(unlocked)
      ensures var rewrapped := Rewrapped(w, old(file), old_, new_, entropy, io);
        && (rewrapped.Err? ==> volume.trace == old(volume.trace))
        && (rewrapped.Ok? ==> forall i :: old(|volume.trace|) <= i < |volume.trace| ==>
              MidWrite(old(volume.disk), rewrapped.value, volume.trace[i]))
    {
      hide Settled, After;
      var rewrapped := Rewrapped(w, file, old_, new_, entropy, io);
      if rewrapped.Err? {
        return Err(rewrapped.error);
      }
      ghost var before := volume.disk;
      var ok, reached := volume.WritePrivate(rewrapped.value, io.failure);
      AfterEffects(before, rewrapped.value, reached);
      if !ok {
        return Err(Backend);
      }
      file := rewrapped.value;
      return Ok(());
    }
  }

  /** Overwrites the identity entry of the key list, wherever it stands. */
  method ReplaceIdentity(w: World, derived: seq<DerivedKey>, secret: Secret)
    returns (r: Result<seq<DerivedKey>, KeyError>)
    requires exists i :: 0 <= i < |derived| && derived[i].account == Identity
    ensures r == match FromSecret(w, secret)
                 case Err(e) => Err(e)
                 case Ok(identity) => Ok(WithIdentity(derived, identity))
  {
    var keys := derived;
    for i := 0 to |keys|
      invariant |keys| == |derived|
      invariant FromSecret(w, secret).Err? ==> forall k :: 0 <= k < i ==> derived[k].account != Identity
      invariant forall k :: i <= k < |keys| ==> keys[k] == derived[k]
      invariant forall k :: 0 <= k < i && FromSecret(w, secret).Ok? ==>
        keys[k] == WithIdentity(derived, FromSecret(w, secret).value)[k]
    {
      if keys[i].account == Identity {
        var identity := FromSecret(w, secret);
        if identity.Err? {
          return Err(identity.error);
        }
        keys := keys[i := identity.value];
      }
    }
    assert FromSecret(w, secret).Ok?;
    assert keys == WithIdentity(derived, FromSecret(w, secret).value);
    return Ok(keys);
  }
}
