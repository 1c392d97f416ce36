/** What a passphrase protects, over any sequence of changes: exactly the last one set
    opens the vault, and what it opens never changes. */
module KeystoreLaws {
  import opened Basics
  import opened Disk
  import opened Keystore

  /** The file wraps these secrets under this passphrase, both or neither, and apart. */
  ghost predicate Protects(file: KeystoreFile, passphrase: Bytes, s: Secrets) {
    var kek := Kek(passphrase, file.seed.salt, file.seed.params);
    && |s.seed| == SizeOf(SeedRole)
    && file.seed == Wrap(kek, s.seed, file.seed.nonce, SeedRole)
    && match s.imported
       case None => file.identitySource == FromSeed
       case Some(secret) =>
         && |secret| == SizeOf(IdentityRole) && file.identitySource == ImportedNsec && file.identityKey.Some?
         && file.identityKey.value == Wrap(kek, secret, file.identityKey.value.nonce, IdentityRole)
         && file.identityKey.value.nonce != file.seed.nonce
  }

  /** Everything a file says besides how its secrets are wrapped. */
  predicate SameVault(a: KeystoreFile, b: KeystoreFile) {
    && a.version == b.version && a.identityPubkey == b.identityPubkey
    && a.dekSource == b.dekSource && a.identitySource == b.identitySource && a.seed.params == b.seed.params
  }

  lemma CreatedProtects(w: World, seed: Bytes, passphrase: Bytes, salt: Bytes, nonce: Bytes, params: Params,
                        memory: bool)
    requires |seed| == SizeOf(SeedRole)
    requires Created(w, seed, passphrase, salt, nonce, params, memory).Ok?
    ensures var file := Created(w, seed, passphrase, salt, nonce, params, memory).value;
      && Protects(file, passphrase, Secrets(seed, None)) && w.accepts(file.seed.params)
      && w.derive(seed, Identity).Some? && file.identityPubkey == w.public(w.derive(seed, Identity).value)
      && file.version == 2 && file.dekSource == FromVaultData
      && file.seed.salt == salt && file.seed.nonce == nonce && file.seed.params == params
  {
  }

  lemma CreatedWithNsecProtects(w: World, secret: Secret, seed: Bytes, passphrase: Bytes, entropy: WrapEntropy,
                                params: Params, memory: bool)
    requires |seed| == SizeOf(SeedRole) && |secret| == SizeOf(IdentityRole)
    requires CreatedWithNsec(w, secret, seed, passphrase, entropy, params, memory).Ok?
    ensures var file := CreatedWithNsec(w, secret, seed, passphrase, entropy, params, memory).value;
      && Protects(file, passphrase, Secrets(seed, Some(secret))) && w.accepts(file.seed.params)
      && file.identityPubkey == w.public(secret) && file.version == 2 && file.dekSource == FromVaultData
      && file.seed.salt == entropy.salt && file.seed.params == params
      && file.seed.nonce == entropy.seedNonce && file.identityKey.value.nonce == entropy.identityNonce
  {
  }

  /** One passphrase opens the vault; any other is told so. */
  lemma OpensExactly(w: World, file: KeystoreFile, passphrase: Bytes, s: Secrets, attempt: Bytes)
    requires Protects(file, passphrase, s) && w.accepts(file.seed.params)
    ensures Opened(w, file, attempt, true) ==
      if attempt == passphrase then Yields(w, s, file.identityPubkey, file.dekSource) else Err(BadPassphrase)
  {
  }

  predicate Works(io: Io) {
    io.memoryOld && io.memoryNew && io.encodes
  }

  /** A re-wrap needs the passphrase in force, and protects the same secrets under the
      new one, with the salt and the nonces drawn for it. */
  lemma RewrapKeeps(w: World, file: KeystoreFile, passphrase: Bytes, s: Secrets, old_: Bytes, new_: Bytes,
                    entropy: WrapEntropy, io: Io)
    requires Protects(file, passphrase, s) && w.accepts(file.seed.params)
    ensures var r := Rewrapped(w, file, old_, new_, entropy, io);
      && (r.Ok? <==> old_ == passphrase && Works(io))
      && (r.Ok? ==> Protects(r.value, new_, s) && SameVault(r.value, file))
      && (r.Ok? ==> r.value.seed.salt == entropy.salt && r.value.seed.nonce == entropy.seedNonce)
      && (r.Ok? && s.imported.Some? ==>
            r.value.identityKey.value.salt == entropy.salt && r.value.identityKey.value.nonce == entropy.identityNonce)
      && (io.memoryOld && old_ != passphrase ==> r == Err(BadPassphrase))
  {
  }

  // --- any sequence of changes ---------------------------------------------------------------------

  /** A call with the randomness as it was drawn. */
  datatype Call = Call(old_: Bytes, new_: Bytes, drawn: RawEntropy, io: Io)

  function Entropy(call: Call): Result<WrapEntropy, KeyError> {
    NewEntropy(call.drawn.salt, call.drawn.seedNonce, call.drawn.identityNonce)
  }

  predicate Lands(io: Io) {
    Works(io) && (io.failure.None? || io.failure.value.AtDirectory?)
  }

  /** The file after one call: the re-wrapped one if it was written, else as it was.
      Randomness with one nonce for both secrets never reaches the keystore. */
  function AfterCall(w: World, file: KeystoreFile, call: Call): KeystoreFile {
    match Entropy(call)
    case Err(_) => file
    case Ok(entropy) =>
      match Rewrapped(w, file, call.old_, call.new_, entropy, call.io)
      case Err(_) => file
      case Ok(updated) => if Lands(call.io) then updated else file
  }

  function AfterCalls(w: World, file: KeystoreFile, calls: seq<Call>): KeystoreFile {
    if calls == [] then file else AfterCall(w, AfterCalls(w, file, calls[..|calls| - 1]), calls[|calls| - 1])
  }

  /** The passphrase in force: the last one set by a call that knew the one before. */
  function InForce(passphrase: Bytes, calls: seq<Call>): Bytes {
    if calls == [] then passphrase
    else
      var before := InForce(passphrase, calls[..|calls| - 1]);
      var call := calls[|calls| - 1];
      if call.old_ == before && call.drawn.seedNonce != call.drawn.identityNonce && Lands(call.io)
      then call.new_
      else before
  }

  lemma {:induction false} CallsKeep(w: World, file: KeystoreFile, passphrase: Bytes, s: Secrets, calls: seq<Call>)
    requires Protects(file, passphrase, s) && w.accepts(file.seed.params)
    ensures Protects(AfterCalls(w, file, calls), InForce(passphrase, calls), s)
    ensures SameVault(AfterCalls(w, file, calls), file)
  {
    hide Protects, Rewrapped;
    if calls != [] {
      var shorter := calls[..|calls| - 1];
      var call := calls[|calls| - 1];
      CallsKeep(w, file, passphrase, s, shorter);
      if Entropy(call).Ok? {
        RewrapKeeps(w, AfterCalls(w, file, shorter), InForce(passphrase, shorter), s, call.old_, call.new_,
            Entropy(call).value, call.io);
      }
    }
  }

  /** Whatever was drawn, the two secrets of an imported vault are never under one key
      with one nonce. */
  lemma NoncesStayApart(w: World, file: KeystoreFile, passphrase: Bytes, s: Secrets, calls: seq<Call>)
    requires Protects(file, passphrase, s) && w.accepts(file.seed.params) && s.imported.Some?
    ensures var after := AfterCalls(w, file, calls);
      && after.identityKey.Some? && after.identityKey.value.ciphertext.key == after.seed.ciphertext.key
      && after.identityKey.value.ciphertext.nonce != after.seed.ciphertext.nonce
  {
    hide AfterCalls, InForce;
    CallsKeep(w, file, passphrase, s, calls);
  }

  /** Over every sequence of calls, right or wrong, interrupted by a failing disk or
      not: exactly the passphrase in force opens the file, and what it opens is what
      the first passphrase opened at the start. */
  lemma ExactlyTheLastOpens(w: World, file: KeystoreFile, passphrase: Bytes, s: Secrets, calls: seq<Call>,
                            attempt: Bytes)
    requires Protects(file, passphrase, s) && w.accepts(file.seed.params)
    ensures Opened(w, AfterCalls(w, file, calls), attempt, true) ==
      if attempt == InForce(passphrase, calls) then Opened(w, file, passphrase, true) else Err(BadPassphrase)
  {
    hide Protects, Opened, AfterCalls, InForce;
    CallsKeep(w, file, passphrase, s, calls);
    OpensExactly(w, AfterCalls(w, file, calls), InForce(passphrase, calls), s, attempt);
    OpensExactly(w, file, passphrase, s, passphrase);
  }

  // --- crashes ---------------------------------------------------------------------------------------------

  /** A crash at any point of a change leaves a file that the old passphrase or the new
      one opens, to the same keys, and that another change can safely replace. */
  lemma CrashKeepsVault(w: World, file: KeystoreFile, s: Secrets, old_: Bytes, new_: Bytes, entropy: WrapEntropy,
                        io: Io, d: Disk<KeystoreFile>, n: nat, e: Disk<KeystoreFile>)
    requires Protects(file, old_, s) && w.accepts(file.seed.params)
    requires Rewrapped(w, file, old_, new_, entropy, io).Ok?
    requires Settled(d) && forall c :: MayRead(d, c) ==> c == Some(Whole(file))
    requires n <= 5 && CrashesTo(After(d, Rewrapped(w, file, old_, new_, entropy, io).value, n), e)
    ensures Settled(e)
    ensures Main(e).Some? && Main(e).value.Whole?
    ensures var found := Main(e).value.value;
      || (Protects(found, old_, s) && Opened(w, found, old_, true) == Opened(w, file, old_, true))
      || (Protects(found, new_, s) && Opened(w, found, new_, true) == Opened(w, file, old_, true))
  {
    hide Protects, Opened, MayRead, CrashesTo, After, Settled;
    var updated := Rewrapped(w, file, old_, new_, entropy, io).value;
    RewrapKeeps(w, file, old_, s, old_, new_, entropy, io);
    CrashSafe(d, updated, n, e);
    OpensExactly(w, file, old_, s, old_);
    OpensExactly(w, updated, new_, s, new_);
  }
}
