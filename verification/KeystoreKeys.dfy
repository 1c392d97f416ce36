/** What an opened vault is: the five account keys and the data key, secret by secret; and
    that a vault which was created opens to them, then and after any changes. */
module KeystoreKeys {
  import opened Basics
  import opened Disk
  import opened Keystore
  import opened KeystoreLaws

  /** Every account has a secret under this seed. */
  ghost predicate AllDerive(w: World, seed: Bytes) {
    forall a: Account :: w.derive(seed, a).Some?
  }

  /** The identity's secret: the imported one, or the seed's. */
  function IdentitySecret(w: World, s: Secrets): Option<Secret> {
    if s.imported.Some? then s.imported else w.derive(s.seed, Identity)
  }

  /** The keys, account by account, with this secret for the identity. */
  ghost predicate HoldsKeys(w: World, seed: Bytes, identity: Secret, keys: seq<DerivedKey>)
    requires AllDerive(w, seed)
  {
    && |keys| == 5
    && keys[0] == DerivedKey(Identity, identity, w.public(identity))
    && keys[1] == DerivedKey(Ghost, w.derive(seed, Ghost).value, w.public(w.derive(seed, Ghost).value))
    && keys[2] == DerivedKey(Account.Anchor, w.derive(seed, Account.Anchor).value,
                             w.public(w.derive(seed, Account.Anchor).value))
    && keys[3] == DerivedKey(Data, w.derive(seed, Data).value, w.public(w.derive(seed, Data).value))
    && keys[4] == DerivedKey(SignerChannel, w.derive(seed, SignerChannel).value,
                             w.public(w.derive(seed, SignerChannel).value))
  }

  predicate IsKey(w: World, seed: Bytes, a: Account, key: DerivedKey) {
    var secret := w.derive(seed, a);
    secret.Some? && key == DerivedKey(a, secret.value, w.public(secret.value))
  }

  lemma {:induction false} DerivesEach(w: World, seed: Bytes, accounts: seq<Account>)
    ensures DeriveAll(w, seed, accounts).Ok? <==> forall i :: 0 <= i < |accounts| ==> w.derive(seed, accounts[i]).Some?
    ensures DeriveAll(w, seed, accounts).Ok? ==>
      forall i :: 0 <= i < |accounts| ==> IsKey(w, seed, accounts[i], DeriveAll(w, seed, accounts).value[i])
  {
    if accounts != [] {
      DerivesEach(w, seed, accounts[..|accounts| - 1]);
    }
  }

  lemma FiveAccounts(w: World, seed: Bytes)
    ensures DeriveAll(w, seed, ACCOUNTS).Ok? <==> AllDerive(w, seed)
    ensures DeriveAll(w, seed, ACCOUNTS).Ok? ==>
      HoldsKeys(w, seed, w.derive(seed, Identity).value, DeriveAll(w, seed, ACCOUNTS).value)
  {
    DerivesEach(w, seed, ACCOUNTS);
    if DeriveAll(w, seed, ACCOUNTS).Ok? {
      forall a: Account
        ensures w.derive(seed, a).Some?
      {
        var i := AccountAt(a);
      }
    }
  }

  lemma AccountAt(a: Account) returns (i: nat)
    ensures i < 5 && ACCOUNTS[i] == a
  {
    i := match a
         case Identity => 0
         case Ghost => 1
         case Anchor => 2
         case Data => 3
         case SignerChannel => 4;
  }

  lemma FoundKeys(w: World, seed: Bytes, identity: Secret, keys: seq<DerivedKey>)
    requires AllDerive(w, seed) && HoldsKeys(w, seed, identity, keys)
    ensures Find(keys, Identity) == Ok(keys[0]) && Find(keys, Data) == Ok(keys[3])
  {
    assert Find(keys, Data) == Find(keys[1..], Data) == Find(keys[1..][1..], Data);
    assert Find(keys[1..][1..], Data) == Find(keys[1..][1..][1..], Data) == Ok(keys[3]);
  }

  lemma {:induction false} DerivesFail(w: World, seed: Bytes, accounts: seq<Account>)
    ensures DeriveAll(w, seed, accounts).Err? ==> DeriveAll(w, seed, accounts).error == InvalidDerivationPath
  {
    if accounts != [] {
      DerivesFail(w, seed, accounts[..|accounts| - 1]);
    }
  }

  lemma KeysHeld(w: World, s: Secrets)
    ensures !AllDerive(w, s.seed) ==> KeysOf(w, s) == Err(InvalidDerivationPath)
    ensures AllDerive(w, s.seed) && KeysOf(w, s).Err? ==> KeysOf(w, s) == Err(InvalidPublicKey)
    ensures KeysOf(w, s).Ok? <==> AllDerive(w, s.seed) && (s.imported.Some? ==> w.usable(s.imported.value))
    ensures KeysOf(w, s).Ok? ==> HoldsKeys(w, s.seed, IdentitySecret(w, s).value, KeysOf(w, s).value)
  {
    hide DeriveAll;
    DerivesFail(w, s.seed, ACCOUNTS);
    FiveAccounts(w, s.seed);
  }

  /** What the passphrase in force opens. The vault opens exactly when every account has a
      secret, an imported one is usable, and the file names the public key of the identity
      it holds. It then yields those secrets and their public keys, and the data key comes
      from the data account, or from the identity where the file says so. */
  lemma OpenedExact(w: World, file: KeystoreFile, passphrase: Bytes, s: Secrets)
    requires Protects(file, passphrase, s) && w.accepts(file.seed.params)
    ensures var o := Opened(w, file, passphrase, true);
      && (o.Ok? <==> AllDerive(w, s.seed) && (s.imported.Some? ==> w.usable(s.imported.value))
                     && file.identityPubkey == w.public(IdentitySecret(w, s).value))
      && (!AllDerive(w, s.seed) ==> o == Err(InvalidDerivationPath))
      && (AllDerive(w, s.seed) && s.imported.Some? && !w.usable(s.imported.value) ==> o == Err(InvalidPublicKey))
      && ((AllDerive(w, s.seed) && (s.imported.Some? ==> w.usable(s.imported.value))
           && file.identityPubkey != w.public(IdentitySecret(w, s).value)) ==> o == Err(Backend))
      && (o.Ok? ==> HoldsKeys(w, s.seed, IdentitySecret(w, s).value, o.value.keys))
      && (o.Ok? && file.dekSource == FromIdentity ==> o.value.dek == w.expand(IdentitySecret(w, s).value))
      && (o.Ok? && file.dekSource == FromVaultData ==> o.value.dek == w.expand(w.derive(s.seed, Data).value))
  {
    hide DeriveAll, Find, KeysOf, HoldsKeys;
    OpensExactly(w, file, passphrase, s, passphrase);
    KeysHeld(w, s);
    if KeysOf(w, s).Ok? {
      FoundKeys(w, s.seed, IdentitySecret(w, s).value, KeysOf(w, s).value);
      HeldEnds(w, s.seed, IdentitySecret(w, s).value, KeysOf(w, s).value);
    }
  }

  lemma HeldEnds(w: World, seed: Bytes, identity: Secret, keys: seq<DerivedKey>)
    requires AllDerive(w, seed) && HoldsKeys(w, seed, identity, keys)
    ensures |keys| == 5 && keys[0].secret == identity && keys[0].public == w.public(identity)
    ensures keys[3].secret == w.derive(seed, Data).value
  {
  }

  /** The outcome of opening: these keys, and the data account's data key. */
  ghost predicate OpensTo(w: World, seed: Bytes, identity: Secret, o: Result<Unlocked, KeyError>) {
    && o.Ok? && AllDerive(w, seed) && HoldsKeys(w, seed, identity, o.value.keys)
    && o.value.dek == w.expand(w.derive(seed, Data).value)
  }

  /** A vault created from a seed. It is created exactly when the identity derives and
      Argon2 runs. From then on, over any sequence of changes, right or wrong, one
      passphrase opens it, the last one set, and it opens to the seed's five keys, exactly
      when all five derive. */
  lemma VaultSurvivesChanges(w: World, seed: Bytes, passphrase: Bytes, salt: Bytes, nonce: Bytes, params: Params,
                             memory: bool, calls: seq<Call>, attempt: Bytes)
    requires |seed| == 64
    ensures var created := Created(w, seed, passphrase, salt, nonce, params, memory);
      && (created.Ok? <==> w.derive(seed, Identity).Some? && w.accepts(params) && memory)
      && (created.Ok? ==>
            var o := Opened(w, AfterCalls(w, created.value, calls), attempt, true);
            if attempt != InForce(passphrase, calls) then o == Err(BadPassphrase)
            else if AllDerive(w, seed) then OpensTo(w, seed, w.derive(seed, Identity).value, o)
            else o == Err(InvalidDerivationPath))
  {
    hide Opened, AfterCalls, InForce, Protects, DeriveAll, HoldsKeys;
    var created := Created(w, seed, passphrase, salt, nonce, params, memory);
    if created.Ok? {
      var s := Secrets(seed, None);
      CreatedProtects(w, seed, passphrase, salt, nonce, params, memory);
      CallsKeep(w, created.value, passphrase, s, calls);
      OpenedExact(w, AfterCalls(w, created.value, calls), InForce(passphrase, calls), s);
      OpensExactly(w, AfterCalls(w, created.value, calls), InForce(passphrase, calls), s, attempt);
    }
  }

  /** The same of a vault created around an imported identity: the identity key is the
      imported one, and everything else is the seed's. */
  lemma ImportedVaultSurvivesChanges(w: World, secret: Secret, seed: Bytes, passphrase: Bytes, entropy: WrapEntropy,
                                     params: Params, memory: bool, calls: seq<Call>, attempt: Bytes)
    requires |seed| == 64 && |secret| == 32
    ensures var created := CreatedWithNsec(w, secret, seed, passphrase, entropy, params, memory);
      && (created.Ok? <==> w.usable(secret) && w.accepts(params) && memory)
      && (created.Ok? ==>
            var o := Opened(w, AfterCalls(w, created.value, calls), attempt, true);
            if attempt != InForce(passphrase, calls) then o == Err(BadPassphrase)
            else if AllDerive(w, seed) then OpensTo(w, seed, secret, o)
            else o == Err(InvalidDerivationPath))
  {
    hide Opened, AfterCalls, InForce, Protects, DeriveAll, HoldsKeys;
    var created := CreatedWithNsec(w, secret, seed, passphrase, entropy, params, memory);
    if created.Ok? {
      var s := Secrets(seed, Some(secret));
      CreatedWithNsecProtects(w, secret, seed, passphrase, entropy, params, memory);
      CallsKeep(w, created.value, passphrase, s, calls);
      OpenedExact(w, AfterCalls(w, created.value, calls), InForce(passphrase, calls), s);
      OpensExactly(w, AfterCalls(w, created.value, calls), InForce(passphrase, calls), s, attempt);
    }
  }

  /** A file as version 1 wrote it: none of the later fields, which read as the identity's
      data key and the seed's identity. */
  function AsVersionOne(file: KeystoreFile): KeystoreFile {
    file.(version := 1, dekSource := FromIdentity, identitySource := FromSeed, identityKey := None)
  }

  /** The migration promise: a version 1 vault opens to the same five keys, then and after
      any changes, and its data key is the identity's. */
  lemma VersionOneOpens(w: World, seed: Bytes, passphrase: Bytes, salt: Bytes, nonce: Bytes, params: Params,
                        calls: seq<Call>)
    requires |seed| == 64 && AllDerive(w, seed) && w.accepts(params)
    ensures var created := Created(w, seed, passphrase, salt, nonce, params, true);
      && created.Ok?
      && var o := Opened(w, AfterCalls(w, AsVersionOne(created.value), calls), InForce(passphrase, calls), true);
         var identity := w.derive(seed, Identity).value;
         o.Ok? && HoldsKeys(w, seed, identity, o.value.keys) && o.value.dek == w.expand(identity)
  {
    hide Opened, AfterCalls, InForce, DeriveAll, HoldsKeys;
    CreatedProtects(w, seed, passphrase, salt, nonce, params, true);
    var file := AsVersionOne(Created(w, seed, passphrase, salt, nonce, params, true).value);
    CallsKeep(w, file, passphrase, Secrets(seed, None), calls);
    OpenedExact(w, AfterCalls(w, file, calls), InForce(passphrase, calls), Secrets(seed, None));
  }

  /** A file that says it carries an imported identity and carries none opens to nothing,
      even under its passphrase, and says so. */
  lemma MissingImport(w: World, file: KeystoreFile, passphrase: Bytes, seed: Bytes)
    requires Protects(file.(identitySource := FromSeed), passphrase, Secrets(seed, None)) && w.accepts(file.seed.params)
    requires AllDerive(w, seed) && file.identitySource == ImportedNsec && file.identityKey == None
    ensures Opened(w, file, passphrase, true) == Err(Backend)
  {
    hide DeriveAll;
    FiveAccounts(w, seed);
  }
}
