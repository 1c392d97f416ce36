/** Bucket arithmetic, the round trip with its exact bounds, and exactly which payloads
    decrypt. */
module Nip44Laws {
  import opened Basics
  import opened Base64
  import opened Nip44

  // --- powers and buckets ------------------------------------------------------------------------

  lemma {:induction false} LeadingZerosExact(x: nat, width: nat)
    requires x < Pow2(width)
    ensures x < Pow2(width - LeadingZeros(x, width))
    ensures x > 0 ==> LeadingZeros(x, width) < width && Pow2(width - LeadingZeros(x, width) - 1) <= x
  {
    if width > 0 && x < Pow2(width - 1) {
      LeadingZerosExact(x, width - 1);
    }
  }

  predicate IsPowerOfTwo(p: nat) {
    exists k: nat :: k <= p && Pow2(k) == p
  }

  lemma Pow2At63()
    ensures Pow2(63) == 0x8000_0000_0000_0000 && Pow2(64) == 0x1_0000_0000_0000_0000
  {
    assert Pow2(4) == 16 && Pow2(64) == 2 * Pow2(63);
    hide Pow2;
    Pow2Sum(4, 4);
    Pow2Sum(8, 8);
    Pow2Sum(16, 16);
    Pow2Sum(32, 32);
  }

  /** The shift by leading zeros is the least power of two at or above `len`. */
  lemma NextPowerIsLeast(len: nat)
    requires 1 < len <= Pow2(63)
    ensures IsPowerOfTwo(NextPower(len)) && len <= NextPower(len) <= Pow2(63)
    ensures forall p :: IsPowerOfTwo(p) && len <= p ==> NextPower(len) <= p
  {
    hide Pow2, LeadingZeros;
    Pow2At63();
    LeadingZerosExact(len - 1, USIZE_BITS);
    var k := USIZE_BITS - LeadingZeros(len - 1, USIZE_BITS);
    Pow2Grows(k, k);
    if k > 63 {
      Pow2Grows(63, k - 1);
      assert false;
    }
    Pow2Grows(k, 63);
    forall p | IsPowerOfTwo(p) && len <= p
      ensures NextPower(len) <= p
    {
      var j: nat :| j <= p && Pow2(j) == p;
      if j < k {
        Pow2Grows(j, k - 1);
        assert false;
      }
      Pow2Grows(k, j);
    }
  }

  // --- rounding up ---------------------------------------------------------------------------------

  /** Rounding up gives the only multiple of the chunk in reach. */
  lemma RoundUpIs(len: nat, chunk: nat, q: nat)
    requires len >= 1 && chunk >= 1 && len <= chunk * q < len + chunk
    ensures RoundUp(len, chunk) == chunk * q
  {
    var p := (len - 1) / chunk;
    Quotient(len - 1, chunk);
    assert q >= 1;
    assert chunk * q == chunk * (q - 1) + chunk;
    QuotientUnique(chunk, p, (len - 1) % chunk, q - 1, len - 1 - chunk * (q - 1));
  }

  lemma RoundUpReach(len: nat, chunk: nat) returns (q: nat)
    requires len >= 1 && chunk >= 1
    ensures RoundUp(len, chunk) == chunk * q && len <= chunk * q < len + chunk && q >= 1
  {
    q := (len - 1) / chunk + 1;
    Quotient(len - 1, chunk);
    assert chunk * q == chunk * (q - 1) + chunk;
  }

  lemma MulMonotone(c: nat, p: nat, q: nat)
    requires p <= q
    ensures c * p <= c * q
  {
    if p < q {
      MulAtLeast(c, q - p);
      assert c * q == c * p + c * (q - p);
    }
  }

  lemma RoundUpMonotone(a: nat, b: nat, chunk: nat)
    requires 1 <= a <= b && chunk >= 1
    ensures RoundUp(a, chunk) <= RoundUp(b, chunk)
  {
    hide RoundUp;
    var p := RoundUpReach(a, chunk);
    var q := RoundUpReach(b, chunk);
    if p > q {
      assert chunk * (q + 1) == chunk * q + chunk;
      MulMonotone(chunk, q + 1, p);
      assert false;
    }
    MulMonotone(chunk, p, q);
  }

  /** A multiple of the chunk is never passed, and is its own rounding. */
  lemma RoundUpWithin(len: nat, chunk: nat, m: nat)
    requires 1 <= len <= chunk * m && chunk >= 1
    ensures RoundUp(len, chunk) <= chunk * m && RoundUp(chunk * m, chunk) == chunk * m
  {
    hide RoundUp;
    RoundUpIs(chunk * m, chunk, m);
    RoundUpMonotone(len, chunk * m, chunk);
  }

  // --- the buckets -----------------------------------------------------------------------------------

  /** Above 256 the power is at least 512 and a multiple of 8 chunks of 32. */
  lemma ChunkShape(len: nat) returns (k: nat, eighth: nat)
    requires 32 < len <= Pow2(63)
    ensures 6 <= k <= 63 && NextPower(len) == Pow2(k) && Pow2(k - 1) < len <= Pow2(k)
    ensures k >= 9 ==> eighth >= 6 && eighth == k - 3
    ensures k >= 9 ==> ChunkFor(NextPower(len)) == Pow2(eighth) && Pow2(k) == 8 * Pow2(eighth)
    ensures k >= 9 ==> Pow2(k - 1) == 4 * Pow2(eighth)
    ensures k < 9 ==> ChunkFor(NextPower(len)) == 32
  {
    LeadingZerosExact(len - 1, USIZE_BITS);
    NextPowerIsLeast(len);
    k := USIZE_BITS - LeadingZeros(len - 1, USIZE_BITS);
    assert k <= 63;
    if k < 6 {
      Pow2Grows(k, 5);
      assert false;
    }
    eighth := k - 3;
    assert Pow2(k) == 2 * Pow2(k - 1);
    assert Pow2(k - 1) == 2 * (2 * Pow2(k - 3));
    SmallPowers();
    if k >= 9 {
      Pow2Grows(9, k);
    } else {
      Pow2Grows(k, 8);
    }
  }

  lemma SmallPowers()
    ensures Pow2(5) == 32 && Pow2(6) == 64 && Pow2(8) == 256 && Pow2(9) == 512
  {
    assert Pow2(5) == 32;
    assert Pow2(6) == 2 * Pow2(5);
    assert Pow2(8) == 2 * (2 * Pow2(6));
    assert Pow2(9) == 2 * Pow2(8);
  }

  /** What a bucket is: it fits, it is a multiple of 32, and it wastes little. */
  lemma BucketLaws(len: nat)
    requires len <= Pow2(63)
    ensures PadToBucket(len) >= len && PadToBucket(len) % 32 == 0
    ensures 32 < len <= 256 ==> PadToBucket(len) - len < 32
    ensures len > 256 ==> 4 * (PadToBucket(len) - len) < len
  {
    hide RoundUp, NextPower, ChunkFor, Pow2;
    if len > 32 {
      var k, e := ChunkShape(len);
      SmallPowers();
      if k >= 9 {
        Pow2Grows(8, k - 1);
        var q := RoundUpReach(len, Pow2(e));
        MultipleOf32(e, q);
      } else {
        var q := RoundUpReach(len, 32);
        Pow2Grows(k, 8);
      }
    }
  }

  lemma MultipleOf32(e: nat, q: nat)
    requires e >= 5
    ensures (Pow2(e) * q) % 32 == 0
  {
    hide Pow2;
    Pow2Sum(5, e - 5);
    SmallPowers();
    Regrouped(Pow2(e - 5), q);
  }

  lemma Regrouped(p: nat, q: nat)
    ensures 32 * p * q % 32 == 0
  {
    var m := p * q;
    assert 32 * p * q == 32 * m;
    ThirtyTwos(m);
  }

  lemma ThirtyTwos(m: nat)
    ensures 32 * m % 32 == 0
  {
  }

  /** A longer message never lands in a smaller bucket. */
  lemma BucketMonotone(a: nat, b: nat)
    requires a <= b <= Pow2(63)
    ensures PadToBucket(a) <= PadToBucket(b)
  {
    hide RoundUp, NextPower, Pow2;
    if a > 32 {
      var j, _ := ChunkShape(a);
      var k, _ := ChunkShape(b);
      if j == k {
        RoundUpMonotone(a, b, ChunkFor(Pow2(k)));
      } else {
        BucketWithinPower(a);
        if j > k {
          Pow2Grows(k, j - 1);
          assert false;
        }
        Pow2Grows(j, k - 1);
      }
    }
  }

  lemma BucketWithinPower(len: nat)
    requires 32 < len <= Pow2(63)
    ensures PadToBucket(len) <= NextPower(len)
  {
    hide RoundUp, NextPower, Pow2;
    var k, e := ChunkShape(len);
    if k >= 9 {
      RoundUpWithin(len, Pow2(e), 8);
    } else {
      SmallPowers();
      PowersTo256(k);
      RoundUpWithin(len, 32, Pow2(k) / 32);
    }
  }

  lemma PowersTo256(k: nat)
    requires 5 <= k <= 8
    ensures Pow2(k) % 32 == 0 && Pow2(k) >= 32
  {
    SmallPowers();
    assert Pow2(7) == 2 * Pow2(6);
  }

  /** A bucket is its own bucket. */
  lemma BucketIdempotent(len: nat)
    requires len <= Pow2(63)
    ensures PadToBucket(len) <= Pow2(63) && PadToBucket(PadToBucket(len)) == PadToBucket(len)
  {
    hide RoundUp, NextPower, Pow2;
    Pow2At63();
    if len > 32 {
      var r := PadToBucket(len);
      BucketWithinPower(len);
      NextPowerIsLeast(len);
      var k, _ := ChunkShape(len);
      var j, _ := ChunkShape(r);
      if j > k {
        Pow2Grows(k, j - 1);
        assert false;
      } else if j < k {
        Pow2Grows(j, k - 1);
        assert false;
      }
      var chunk := ChunkFor(Pow2(k));
      var q := RoundUpReach(len, chunk);
      RoundUpIs(r, chunk, q);
    }
  }

  // --- padding ------------------------------------------------------------------------------------------

  lemma SmallIsWithin63(len: nat)
    requires len <= MAX_PLAINTEXT + 1
    ensures len <= Pow2(63)
  {
    hide Pow2;
    Pow2At63();
  }

  lemma PowerIs(len: nat, k: nat)
    requires 1 <= k <= 63 && Pow2(k - 1) < len <= Pow2(k)
    ensures 1 < len && NextPower(len) == Pow2(k)
  {
    hide Pow2, NextPower;
    Pow2Grows(k - 1, k - 1);
    Pow2Grows(k, 63);
    NextPowerIsLeast(len);
    Pow2Grows(k, k);
    assert IsPowerOfTwo(Pow2(k));
    var j: nat :| j <= NextPower(len) && Pow2(j) == NextPower(len);
    if j < k {
      Pow2Grows(j, k - 1);
      assert false;
    }
    Pow2Grows(k, j);
  }

  lemma PowersAt15()
    ensures Pow2(15) == 0x8000 && Pow2(16) == 0x1_0000
  {
    hide Pow2;
    SmallPowers();
    Pow2Sum(6, 9);
    Pow2Sum(8, 8);
  }

  lemma OutermostBuckets()
    ensures PadToBucket(1) == 32 && PadToBucket(32) == 32
    ensures PadToBucket(57_344) == 57_344 && PadToBucket(57_345) == 0x1_0000 && PadToBucket(0x1_0000) == 0x1_0000
  {
    hide Pow2, NextPower, RoundUp;
    PowersAt15();
    PowerIs(57_344, 16);
    PowerIs(57_345, 16);
    PowerIs(0x1_0000, 16);
    RoundUpIs(57_344, 8192, 7);
    RoundUpIs(57_345, 8192, 8);
    RoundUpIs(0x1_0000, 8192, 8);
  }

  /** The smallest and the largest bucket a plaintext can fall in, and when it does. */
  lemma BucketRange(len: nat)
    requires 1 <= len <= MAX_PLAINTEXT
    ensures 32 <= PadToBucket(len) <= 0x1_0000
    ensures PadToBucket(len) == 32 <==> len <= 32
    ensures PadToBucket(len) == 0x1_0000 <==> len > 57_344
  {
    hide RoundUp, NextPower, Pow2, PadToBucket;
    SmallIsWithin63(0x1_0000);
    BucketMonotone(len, 0x1_0000);
    BucketMonotone(1, len);
    OutermostBuckets();
    if len > 57_344 {
      BucketMonotone(57_345, len);
    } else {
      SmallIsWithin63(57_344);
      BucketMonotone(len, 57_344);
    }
    if len <= 32 {
      BucketMonotone(len, 32) by { SmallIsWithin63(32); }
    }
  }

  lemma Zeroes(len: nat)
    requires 1 <= len <= MAX_PLAINTEXT
    ensures FromBigEndian(BigEndian(len, 2)) == len
  {
    Pow256Values();
    BigEndianRoundTrip(len, 2);
  }

  /** `unpad` undoes `pad`. */
  lemma PadRoundTrip(plaintext: Bytes)
    requires 1 <= |plaintext| <= MAX_PLAINTEXT
    ensures Pad(plaintext).Ok? && Unpad(Pad(plaintext).value) == Ok(plaintext)
    ensures |Pad(plaintext).value| == 2 + PadToBucket(|plaintext|)
  {
    hide PadToBucket, BigEndian, FromBigEndian;
    var padded := Pad(plaintext).value;
    Zeroes(|plaintext|);
    assert padded[..2] == BigEndian(|plaintext|, 2);
    assert padded[2..2 + |plaintext|] == plaintext;
  }

  /** Whenever `unpad` succeeds the prefix, the body and the total length are those
      `pad` gives; only the fill bytes are free. */
  lemma UnpadExact(padded: Bytes, body: Bytes)
    ensures Unpad(padded) == Ok(body) <==>
      && Pad(body).Ok? && |padded| == |Pad(body).value|
      && padded[..2 + |body|] == Pad(body).value[..2 + |body|]
  {
    hide PadToBucket, BigEndian, FromBigEndian;
    if Unpad(padded).Ok? {
      var len := FromBigEndian(padded[..2]);
      FromBigEndianBound(padded[..2]);
      Pow256Values();
      FromBigEndianInverse(padded[..2]);
      assert padded[..2 + len] == padded[..2] + padded[2..2 + len];
    }
    if Pad(body).Ok? && |padded| == |Pad(body).value| && padded[..2 + |body|] == Pad(body).value[..2 + |body|] {
      Zeroes(|body|);
      assert padded[..2] == padded[..2 + |body|][..2] == BigEndian(|body|, 2);
      assert padded[2..2 + |body|] == padded[..2 + |body|][2..] == body;
    }
  }

  // --- whole payloads ----------------------------------------------------------------------------------------

  lemma KeystreamTwice(p: Primitives, keys: MessageKeys, buffer: Bytes)
    ensures Keystreamed(p, keys, Keystreamed(p, keys, buffer)) == buffer
  {
    forall i | 0 <= i < |buffer|
      ensures Keystreamed(p, keys, Keystreamed(p, keys, buffer))[i] == buffer[i]
    {
      XorTwice(buffer[i], p.keystream(keys.chachaKey, keys.chachaNonce, i));
    }
  }

  lemma SealedParts(p: Primitives, key: Word32, nonce: Word32, padded: Bytes)
    ensures var raw := SealedBytes(p, key, nonce, padded);
      var keys := DeriveKeys(p, key, nonce);
      && |raw| == 65 + |padded| && raw[0] == VERSION && raw[1..33] == nonce
      && raw[33..|raw| - 32] == Keystreamed(p, keys, padded)
      && raw[|raw| - 32..] == Mac(p, keys, nonce, Keystreamed(p, keys, padded))
  {
    hide Keystreamed;
  }

  lemma SealedOpens(p: Primitives, key: Word32, nonce: Word32, padded: Bytes)
    requires |padded| >= 34
    ensures |SealedBytes(p, key, nonce, padded)| == 65 + |padded|
    ensures DecryptedRaw(p, key, SealedBytes(p, key, nonce, padded)) == Unpad(padded)
  {
    hide Keystreamed, Mac, DeriveKeys, SealedBytes, Unpad;
    SealedParts(p, key, nonce, padded);
    KeystreamTwice(p, DeriveKeys(p, key, nonce), padded);
  }

  /** The first sextet of a payload is the top of its version byte, so no payload
      starts with the reserved marker. */
  lemma FirstCharacter(raw: Bytes)
    requires raw != [] && raw[0] == VERSION
    ensures Encoded(raw)[0] != HASH
  {
    Sextets(FirstChunk(raw));
  }

  /** The round trip, for every plaintext a payload can carry, with the bounds the
      decoder checks exact: each is met, and by these plaintexts only. */
  lemma EncryptDecrypt(p: Primitives, key: Word32, nonce: Word32, plaintext: Bytes)
    ensures Encrypted(p, key, plaintext, nonce).Ok? <==> 1 <= |plaintext| <= MAX_PLAINTEXT
    ensures Encrypted(p, key, plaintext, nonce).Err? ==> Encrypted(p, key, plaintext, nonce).error == DecryptFailed
    ensures Encrypted(p, key, plaintext, nonce).Ok? ==>
      PayloadFits(p, key, plaintext, Encrypted(p, key, plaintext, nonce).value)
  {
    hide Pow2, Unpad, PadToBucket, SealedBytes, DecryptedRaw, Encoded, Decoded;
    if 1 <= |plaintext| <= MAX_PLAINTEXT {
      PadRoundTrip(plaintext);
      BucketRange(|plaintext|);
      var padded := Pad(plaintext).value;
      BucketLaws(|plaintext|) by { SmallIsWithin63(|plaintext|); }
      SealedParts(p, key, nonce, padded);
      SealedOpens(p, key, nonce, padded);
      var raw := SealedBytes(p, key, nonce, padded);
      Base64RoundTrip(raw);
      FirstCharacter(raw);
    }
  }

  /** The payload decrypts to the plaintext and is inside all four bounds. */
  predicate PayloadFits(p: Primitives, key: Word32, plaintext: Bytes, payload: Bytes) {
    && Decrypted(p, key, payload) == Ok(plaintext)
    && MIN_ENCODED <= |payload| <= MAX_ENCODED
    && (|payload| == MIN_ENCODED <==> |plaintext| <= 32)
    && (|payload| == MAX_ENCODED <==> |plaintext| > 57_344)
    && Decoded(payload).Some?
    && MIN_DECODED <= |Decoded(payload).value| <= MAX_DECODED
    && (|Decoded(payload).value| == MIN_DECODED <==> |plaintext| <= 32)
    && (|Decoded(payload).value| == MAX_DECODED <==> |plaintext| > 57_344)
  }

  /** Exactly which payloads decrypt, and to what: the base64 of a version byte, a
      nonce, the keystreamed padding of the plaintext and the MAC over them, under this
      key. Nothing but the fill bytes inside the padding is free. */
  lemma DecryptExact(p: Primitives, key: Word32, payload: Bytes, plaintext: Bytes)
    ensures Decrypted(p, key, payload) == Ok(plaintext) <==>
      exists nonce: Word32, padded ::
        payload == Encoded(SealedBytes(p, key, nonce, padded)) && Unpad(padded) == Ok(plaintext)
  {
    hide Pad, Unpad, PadToBucket, SealedBytes, DecryptedRaw, Encoded, Decoded;
    if Decrypted(p, key, payload) == Ok(plaintext) {
      var raw := Decoded(payload).value;
      Base64Canonical(payload);
      var nonce, padded := RawWasSealed(p, key, raw, plaintext);
      assert payload == Encoded(SealedBytes(p, key, nonce, padded));
    }
    if nonce: Word32, padded :|
      payload == Encoded(SealedBytes(p, key, nonce, padded)) && Unpad(padded) == Ok(plaintext)
    {
      UnpaddedSize(padded, plaintext);
      SealedParts(p, key, nonce, padded);
      SealedOpens(p, key, nonce, padded);
      Base64RoundTrip(SealedBytes(p, key, nonce, padded));
      FirstCharacter(SealedBytes(p, key, nonce, padded));
    }
  }

  lemma UnpaddedSize(padded: Bytes, plaintext: Bytes)
    requires Unpad(padded) == Ok(plaintext)
    ensures 34 <= |padded| <= 2 + 0x1_0000
  {
    hide PadToBucket, BigEndian, FromBigEndian;
    UnpadExact(padded, plaintext);
    PadRoundTrip(plaintext);
    BucketRange(|plaintext|);
  }

  lemma RawWasSealed(p: Primitives, key: Word32, raw: Bytes, plaintext: Bytes) returns (nonce: Word32, padded: Bytes)
    requires MIN_DECODED <= |raw| && DecryptedRaw(p, key, raw) == Ok(plaintext)
    ensures raw == SealedBytes(p, key, nonce, padded) && Unpad(padded) == Ok(plaintext)
  {
    hide Keystreamed, Mac, DeriveKeys, Unpad;
    nonce := raw[1..33];
    var ciphertext := raw[33..|raw| - 32];
    padded := Keystreamed(p, DeriveKeys(p, key, nonce), ciphertext);
    KeystreamTwice(p, DeriveKeys(p, key, nonce), ciphertext);
    assert raw == [raw[0]] + raw[1..33] + ciphertext + raw[|raw| - 32..];
  }
}
