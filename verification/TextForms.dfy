/** The wire forms of the crypto crate byte by byte: base64, the NIP-44 payload, the TLV
    streams of NIP-19. Round trips hold of any pair of inverse forms; these are the ones
    other programs read and write. */
module TextForms {
  import opened Basics
  import opened Hashing
  import opened Base64
  import opened Nip44
  import opened Nip44Laws
  import Nip19
  import Nip19Laws

  // --- base64 ------------------------------------------------------------------------------------------

  /** Three bytes as four digits of six bits each, the most significant first. */
  lemma ChunkBits(x: u8, y: u8, z: u8)
    ensures EncodedChunk([x, y, z]) == [Char(x / 4), Char(x % 4 * 16 + y / 16), Char(y % 16 * 4 + z / 64), Char(z % 64)]
    ensures EncodedChunk([x, y]) == [Char(x / 4), Char(x % 4 * 16 + y / 16), Char(y % 16 * 4), 0x3D]
    ensures EncodedChunk([x]) == [Char(x / 4), Char(x % 4 * 16), 0x3D, 0x3D]
  {
    hide Char, Group, SextetOf;
    Sextets([x, y, z]);
    Sextets([x, y]);
    Sextets([x]);
  }

  /** The test vectors of section 10 of RFC 4648, and the last two digits of the alphabet. */
  lemma Base64Vectors()
    ensures Encoded([]) == []
    ensures Encoded([0x66]) == [0x5A, 0x67, 0x3D, 0x3D]
    ensures Encoded([0x66, 0x6F]) == [0x5A, 0x6D, 0x38, 0x3D]
    ensures Encoded([0x66, 0x6F, 0x6F]) == [0x5A, 0x6D, 0x39, 0x76]
    ensures Encoded([0x66, 0x6F, 0x6F] + [0x62]) == [0x5A, 0x6D, 0x39, 0x76] + [0x59, 0x67, 0x3D, 0x3D]
    ensures Encoded([0x66, 0x6F, 0x6F] + [0x62, 0x61]) == [0x5A, 0x6D, 0x39, 0x76] + [0x59, 0x6D, 0x45, 0x3D]
    ensures Encoded([0x66, 0x6F, 0x6F] + [0x62, 0x61, 0x72]) == [0x5A, 0x6D, 0x39, 0x76] + [0x59, 0x6D, 0x46, 0x79]
    ensures Encoded([0xFB, 0xEF, 0xFF]) == [0x2B, 0x2B, 0x2F, 0x2F]
  {
    hide Encoded, EncodedChunk;
    OneChunk([0x66]);
    OneChunk([0x66, 0x6F]);
    OneChunk([0x66, 0x6F, 0x6F]);
    OneChunk([0xFB, 0xEF, 0xFF]);
    TwoChunks([0x66, 0x6F, 0x6F], [0x62]);
    TwoChunks([0x66, 0x6F, 0x6F], [0x62, 0x61]);
    TwoChunks([0x66, 0x6F, 0x6F], [0x62, 0x61, 0x72]);
    ChunkBits(0x66, 0x6F, 0x6F);
    ChunkBits(0x62, 0x61, 0x72);
    ChunkBits(0xFB, 0xEF, 0xFF);
    Nothing();
  }

  lemma Nothing()
    ensures Encoded([]) == []
  {
  }

  lemma OneChunk(b: Bytes)
    requires 1 <= |b| <= 3
    ensures Encoded(b) == EncodedChunk(b)
  {
    assert b[|b|..] == [] && (|b| == 3 ==> b[..3] == b);
  }

  lemma TwoChunks(a: Bytes, b: Bytes)
    requires |a| == 3 && 1 <= |b| <= 3
    ensures Encoded(a + b) == EncodedChunk(a) + EncodedChunk(b)
  {
    assert (a + b)[..3] == a && (a + b)[3..] == b;
    OneChunk(b);
  }

  // --- NIP-44 --------------------------------------------------------------------------------------------

  /** The bytes under the base64: the version, the nonce, the padded text combined with the
      keystream of the first 44 bytes of key material, and the MAC that the last 32 give
      over everything after the version. */
  ghost predicate IsPayload(p: Primitives, key: Word32, nonce: Word32, padded: Bytes, raw: Bytes) {
    var okm := p.expand(key, nonce);
    && |raw| == 65 + |padded| && raw[0] == 2 && raw[1..33] == nonce
    && (forall i :: 0 <= i < |padded| ==>
          raw[33 + i] == XorByte(padded[i], p.keystream(okm[0..32], okm[32..44], i)))
    && raw[|raw| - 32..] == p.hmac(okm[44..76], raw[1..|raw| - 32])
  }

  /** The padded text: its length in two bytes, the text, zeros. */
  ghost predicate IsPadded(plaintext: Bytes, padded: Bytes) {
    && |padded| >= 2 + |plaintext| && 256 * (padded[0] as int) + padded[1] as int == |plaintext|
    && padded[2..2 + |plaintext|] == plaintext
    && forall i :: 2 + |plaintext| <= i < |padded| ==> padded[i] == 0
  }

  lemma SealedIsPayload(p: Primitives, key: Word32, nonce: Word32, padded: Bytes)
    ensures IsPayload(p, key, nonce, padded, SealedBytes(p, key, nonce, padded))
  {
    hide XorByte;
    var raw := SealedBytes(p, key, nonce, padded);
    var keys := DeriveKeys(p, key, nonce);
    var body := Keystreamed(p, keys, padded);
    var okm := p.expand(key, nonce);
    assert okm[0..32] == okm[..32] && okm[44..76] == okm[44..];
    PayloadSlices(nonce, body, Mac(p, keys, nonce, body));
    assert raw == [2] + nonce + body + Mac(p, keys, nonce, body);
  }

  lemma PayloadSlices(nonce: Word32, body: Bytes, mac: Word32)
    ensures var raw: Bytes := [2] + nonce + body + mac;
      && |raw| == 65 + |body| && raw[0] == 2 && raw[1..33] == nonce
      && (forall i :: 0 <= i < |body| ==> raw[33 + i] == body[i])
      && raw[1..|raw| - 32] == nonce + body && raw[|raw| - 32..] == mac
  {
  }

  lemma PadIsPadded(plaintext: Bytes)
    requires 1 <= |plaintext| <= 65535
    ensures Pad(plaintext).Ok? && IsPadded(plaintext, Pad(plaintext).value)
  {
    hide PadToBucket;
    var n := |plaintext|;
    assert BigEndian(n, 2) == BigEndian(n / 256, 1) + [n % 256];
    assert BigEndian(n / 256, 1) == BigEndian(n / 256 / 256, 0) + [n / 256 % 256];
  }

  /** What `encrypt` writes, byte by byte. */
  lemma PayloadBytes(p: Primitives, key: Word32, plaintext: Bytes, nonce: Word32) returns (padded: Bytes, raw: Bytes)
    requires 1 <= |plaintext| <= 65535
    ensures Encrypted(p, key, plaintext, nonce).Ok?
    ensures Decoded(Encrypted(p, key, plaintext, nonce).value) == Some(raw)
    ensures IsPadded(plaintext, padded) && IsPayload(p, key, nonce, padded, raw)
  {
    hide Pad, SealedBytes, IsPadded, IsPayload, Encoded, Decoded;
    PadIsPadded(plaintext);
    padded := Pad(plaintext).value;
    raw := SealedBytes(p, key, nonce, padded);
    SealedIsPayload(p, key, nonce, padded);
    Base64RoundTrip(raw);
  }

  /** A payload of another version says so: 0 for one that begins with `#`, or the version
      byte of one that decodes to the size of a payload. */
  lemma OtherVersions(p: Primitives, key: Word32, payload: Bytes)
    ensures payload != [] && payload[0] == 0x23 ==> Decrypted(p, key, payload) == Err(UnsupportedVersion(0))
    ensures payload != [] && payload[0] != 0x23 && 132 <= |payload| <= 87472 && Decoded(payload).Some?
            && 99 <= |Decoded(payload).value| <= 65603 && Decoded(payload).value[0] != 2 ==>
      Decrypted(p, key, payload) == Err(UnsupportedVersion(Decoded(payload).value[0]))
  {
    hide Decoded;
  }

  // --- NIP-19 --------------------------------------------------------------------------------------------

  /** One relay after the other: type 1, a length byte, the text. */
  function RelayTlvs(relays: seq<Bytes>): Bytes
    requires forall i :: 0 <= i < |relays| ==> |relays[i]| < 256
  {
    if relays == [] then [] else [1, |relays[0]|] + relays[0] + RelayTlvs(relays[1..])
  }

  lemma {:induction false} RelayStream(relays: seq<Bytes>, tail: seq<Nip19.Record>)
    requires forall i :: 0 <= i < |relays| ==> |relays[i]| < 256
    requires Nip19Laws.Expressible(tail)
    ensures Nip19Laws.Expressible(Nip19.RelayRecords(relays) + tail)
    ensures Nip19Laws.Stream(Nip19.RelayRecords(relays) + tail) == RelayTlvs(relays) + Nip19Laws.Stream(tail)
    decreases |relays|
  {
    var rs := Nip19.RelayRecords(relays);
    if relays == [] {
      assert rs + tail == tail;
    } else {
      var rest := Nip19.RelayRecords(relays[1..]) + tail;
      RelayStream(relays[1..], tail);
      assert rs + tail == [Nip19.Record(1, relays[0])] + rest;
      FirstInStream(Nip19.Record(1, relays[0]), rest);
      hide Nip19Laws.Stream, Nip19Laws.Expressible;
      assert [1, |relays[0]|] + relays[0] + (RelayTlvs(relays[1..]) + Nip19Laws.Stream(tail))
          == RelayTlvs(relays) + Nip19Laws.Stream(tail);
    }
  }

  lemma FirstInStream(r: Nip19.Record, rest: seq<Nip19.Record>)
    requires Nip19Laws.Expressible(rest) && |r.value| < 256
    ensures Nip19Laws.Expressible([r] + rest)
    ensures Nip19Laws.Stream([r] + rest) == [r.tag, |r.value|] + r.value + Nip19Laws.Stream(rest)
  {
    assert ([r] + rest)[1..] == rest;
  }

  /** An `nprofile`: type 0 and the key, then the relays. */
  lemma NprofileBytes(p: Nip19.Nprofile)
    requires forall i :: 0 <= i < |p.relays| ==> |p.relays[i]| < 256
    ensures Nip19.PushedAll([], Nip19.NprofileRecords(p)) == Ok([0, 32] + p.pubkey + RelayTlvs(p.relays))
  {
    hide Nip19.PushedAll, RelayTlvs;
    var rs := Nip19.NprofileRecords(p);
    RelayStream(p.relays, []);
    assert Nip19.RelayRecords(p.relays) + [] == Nip19.RelayRecords(p.relays) == rs[1..];
    assert rs == [rs[0]] + rs[1..];
    Nip19Laws.PushedExact(rs);
    assert RelayTlvs(p.relays) + [] == RelayTlvs(p.relays);
  }

  /** An `naddr`: type 0 and the identifier, the relays, type 2 and the author, type 3 and
      the kind in four bytes. */
  lemma NaddrBytes(a: Nip19.Naddr)
    requires |a.identifier| < 256 && forall i :: 0 <= i < |a.relays| ==> |a.relays[i]| < 256
    ensures Nip19.PushedAll([], Nip19.NaddrRecords(a)) ==
      Ok([0, |a.identifier|] + a.identifier + (RelayTlvs(a.relays)
         + ([2, 32] + a.pubkey + [3, 4, 0, 0, a.kind / 256, a.kind % 256])))
  {
    hide Nip19.PushedAll, RelayTlvs;
    var rs := Nip19.NaddrRecords(a);
    var tail := [Nip19.Record(2, a.pubkey), Nip19.Record(3, BigEndian(a.kind, 4))];
    KindBytes(a.kind);
    TailStream(a.pubkey, a.kind);
    RelayStream(a.relays, tail);
    assert rs == [rs[0]] + (Nip19.RelayRecords(a.relays) + tail);
    assert rs[1..] == Nip19.RelayRecords(a.relays) + tail;
    Nip19Laws.PushedExact(rs);
  }

  lemma KindBytes(kind: u16)
    ensures BigEndian(kind, 4) == [0, 0, kind / 256, kind % 256]
  {
    assert BigEndian(kind, 4) == BigEndian(kind / 256, 3) + [kind % 256];
    assert BigEndian(kind / 256, 3) == BigEndian(0, 2) + [kind / 256];
    assert BigEndian(0, 2) == BigEndian(0, 1) + [0] && BigEndian(0, 1) == [] + [0];
  }

  lemma TailStream(pubkey: Nip19.PublicKey, kind: u16)
    ensures var tail := [Nip19.Record(2, pubkey), Nip19.Record(3, BigEndian(kind, 4))];
      && Nip19Laws.Expressible(tail)
      && Nip19Laws.Stream(tail) == [2, 32] + pubkey + [3, 4, 0, 0, kind / 256, kind % 256]
  {
    KindBytes(kind);
    var tail := [Nip19.Record(2, pubkey), Nip19.Record(3, BigEndian(kind, 4))];
    assert tail[1..][1..] == [];
    assert Nip19Laws.Stream(tail[1..]) == [3, 4] + BigEndian(kind, 4) + Nip19Laws.Stream([]);
  }

  /** A stream of one key alone: a key off the curve is refused as such, one of another
      length as malformed. */
  lemma LoneKey(curve: Nip19.Curve, key: Bytes)
    requires |key| < 256
    ensures Nip19.NprofileDecoded(curve, [0, |key|] + key) ==
      if |key| != 32 then Err(Nip19.InvalidBech32)
      else if !curve(key) then Err(Nip19.InvalidPublicKey)
      else Ok(Nip19.Nprofile(key, []))
  {
    var rs := [Nip19.Record(0, key)];
    assert rs[1..] == [];
    assert Nip19Laws.Stream(rs) == [0, |key|] + key + Nip19Laws.Stream(rs[1..]) == [0, |key|] + key;
    Nip19Laws.StreamParses(rs);
    hide Nip19.Parsed, Nip19Laws.Stream;
    var take := Nip19.ForNprofile(curve);
    var taken := take(Nip19.NOTHING, rs[0]);
    assert Nip19.TakeAll(take, Nip19.NOTHING, rs) ==
      if taken.Err? then taken else Nip19.TakeAll(take, taken.value, rs[1..]);
  }
}
