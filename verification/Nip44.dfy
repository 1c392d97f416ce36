/** NIP-44 version 2 payloads: bucketed padding, encrypt-then-MAC, and the checks a
    payload passes before anything is decrypted. HKDF, ChaCha20 and HMAC are parameters. */
module Nip44 {
  import opened Basics
  import opened Base64

  const VERSION: u8 := 2
  const MAX_PLAINTEXT: nat := 65_535
  const MIN_DECODED: nat := 99
  const MAX_DECODED: nat := 65_603
  const MIN_ENCODED: nat := 132
  const MAX_ENCODED: nat := 87_472

  // --- buckets -------------------------------------------------------------------------------

  const USIZE_BITS: nat := 64

  function LeadingZeros(x: nat, width: nat): (z: nat)
    ensures z <= width
  {
    if width == 0 || x >= Pow2(width - 1) then 0 else 1 + LeadingZeros(x, width - 1)
  }

  function NextPower(len: nat): nat
    requires len >= 1
  {
    Pow2(USIZE_BITS - LeadingZeros(len - 1, USIZE_BITS))
  }

  function ChunkFor(power: nat): nat {
    if power <= 256 then 32 else power / 8
  }

  function RoundUp(len: nat, chunk: nat): (r: nat)
    requires len >= 1 && chunk >= 1
    ensures r >= len
  {
    chunk * ((len - 1) / chunk + 1)
  }

  /** Shifts past the top bit are out of reach below 2^63, the largest power a
      64-bit word holds. */
  function PadToBucket(len: nat): (r: nat)
    ensures r >= len
  {
    if len <= 32 then 32 else RoundUp(len, ChunkFor(NextPower(len)))
  }

  // --- words ---------------------------------------------------------------------------------

  function Xor(a: nat, b: nat): nat {
    if a == 0 && b == 0 then 0 else 2 * Xor(a / 2, b / 2) + (a % 2 + b % 2) % 2
  }

  function Or(a: nat, b: nat): nat {
    if a == 0 && b == 0 then 0 else 2 * Or(a / 2, b / 2) + (if a % 2 + b % 2 > 0 then 1 else 0)
  }

  lemma {:induction false} XorBound(a: nat, b: nat, n: nat)
    requires a < Pow2(n) && b < Pow2(n)
    ensures Xor(a, b) < Pow2(n) && Or(a, b) < Pow2(n)
  {
    if n > 0 {
      XorBound(a / 2, b / 2, n - 1);
    }
  }

  lemma XorStep(a: nat, b: nat)
    ensures Xor(a, b) / 2 == Xor(a / 2, b / 2)
    ensures Xor(a, b) % 2 == (a % 2 + b % 2) % 2
  {
  }

  lemma {:induction false} XorTwice(a: nat, b: nat)
    ensures Xor(Xor(a, b), b) == a
  {
    hide Xor;
    if a != 0 || b != 0 {
      var x := Xor(a, b);
      XorTwice(a / 2, b / 2);
      XorStep(a, b);
      XorStep(x, b);
      assert Xor(x, b) / 2 == a / 2 && Xor(x, b) % 2 == a % 2;
    } else {
      XorStep(0, 0);
    }
  }

  lemma {:induction false} XorZero(a: nat, b: nat)
    ensures Xor(a, b) == 0 <==> a == b
  {
    if a != 0 || b != 0 {
      XorZero(a / 2, b / 2);
    }
  }

  lemma {:induction false} OrZero(a: nat, b: nat)
    ensures Or(a, b) == 0 <==> a == 0 && b == 0
  {
    if a != 0 || b != 0 {
      OrZero(a / 2, b / 2);
    }
  }

  function XorByte(a: u8, b: u8): (r: u8) {
    assert Pow2(8) == 256;
    XorBound(a, b, 8);
    Xor(a, b)
  }

  function OrByte(a: u8, b: u8): (r: u8) {
    assert Pow2(8) == 256;
    XorBound(a, b, 8);
    Or(a, b)
  }

  // --- the primitives ------------------------------------------------------------------------------

  type Word32 = b: Bytes | |b| == 32 witness seq(32, i => 0)
  type KeyMaterial = b: Bytes | |b| == 76 witness seq(76, i => 0)

  datatype Primitives = Primitives(
    expand: (Word32, Word32) -> KeyMaterial,
    keystream: (Bytes, Bytes, nat) -> u8,
    hmac: (Bytes, Bytes) -> Word32)

  datatype MessageKeys = MessageKeys(chachaKey: Bytes, chachaNonce: Bytes, hmacKey: Bytes)

  function DeriveKeys(p: Primitives, key: Word32, nonce: Word32): MessageKeys {
    var okm := p.expand(key, nonce);
    MessageKeys(okm[..32], okm[32..44], okm[44..])
  }

  function Mac(p: Primitives, keys: MessageKeys, nonce: Word32, ciphertext: Bytes): Word32 {
    p.hmac(keys.hmacKey, nonce + ciphertext)
  }

  function Keystreamed(p: Primitives, keys: MessageKeys, buffer: Bytes): (out: Bytes)
    ensures |out| == |buffer|
  {
    seq<u8>(|buffer|, i requires 0 <= i < |buffer| =>
      XorByte(buffer[i], p.keystream(keys.chachaKey, keys.chachaNonce, i)))
  }

  method ApplyKeystream(p: Primitives, keys: MessageKeys, buffer: array<u8>)
    modifies buffer
    ensures buffer[..] == Keystreamed(p, keys, old(buffer[..]))
  {
    for i := 0 to buffer.Length
      invariant forall k :: 0 <= k < i ==> buffer[k] == Keystreamed(p, keys, old(buffer[..]))[k]
      invariant forall k :: i <= k < buffer.Length ==> buffer[k] == old(buffer[k])
    {
      buffer[i] := XorByte(buffer[i], p.keystream(keys.chachaKey, keys.chachaNonce, i));
    }
  }

  /** Looks at every byte whatever the earlier ones said. */
  method ConstantTimeEq(a: Word32, b: Bytes) returns (same: bool)
    ensures same <==> a == b
  {
    if |b| != |a| {
      return false;
    }
    var difference: u8 := 0;
    for i := 0 to |a|
      invariant difference == 0 <==> a[..i] == b[..i]
    {
      OrZero(difference, XorByte(a[i], b[i]));
      XorZero(a[i], b[i]);
      assert a[..i + 1] == a[..i] + [a[i]] && b[..i + 1] == b[..i] + [b[i]];
      difference := OrByte(difference, XorByte(a[i], b[i]));
    }
    assert a[..|a|] == a && b[..|a|] == b;
    return difference == 0;
  }

  // --- padding ----------------------------------------------------------------------------------------

  datatype CryptoError = DecryptFailed | UnsupportedVersion(version: u8)

  function Zeros(n: nat): (z: Bytes)
    ensures |z| == n
  {
    seq(n, i => 0)
  }

  function Pad(plaintext: Bytes): Result<Bytes, CryptoError> {
    var len := |plaintext|;
    if len == 0 || len > MAX_PLAINTEXT then Err(DecryptFailed)
    else Ok(BigEndian(len, 2) + plaintext + Zeros(PadToBucket(len) - len))
  }

  function Unpad(padded: Bytes): Result<Bytes, CryptoError> {
    if |padded| < 2 then Err(DecryptFailed)
    else
      var len := FromBigEndian(padded[..2]);
      if 2 + len > |padded| then Err(DecryptFailed)
      else if len == 0 || |padded| != 2 + PadToBucket(len) then Err(DecryptFailed)
      else Ok(padded[2..2 + len])
  }

  // --- payloads ---------------------------------------------------------------------------------------

  /** The payload around one padded plaintext. */
  function SealedBytes(p: Primitives, key: Word32, nonce: Word32, padded: Bytes): Bytes {
    var keys := DeriveKeys(p, key, nonce);
    var ciphertext := Keystreamed(p, keys, padded);
    [VERSION] + nonce + ciphertext + Mac(p, keys, nonce, ciphertext)
  }

  function Encrypted(p: Primitives, key: Word32, plaintext: Bytes, nonce: Word32): Result<Bytes, CryptoError> {
    match Pad(plaintext)
    case Err(e) => Err(e)
    case Ok(padded) => Ok(Encoded(SealedBytes(p, key, nonce, padded)))
  }

  const HASH: u8 := 35

  function DecryptedRaw(p: Primitives, key: Word32, raw: Bytes): Result<Bytes, CryptoError>
    requires MIN_DECODED <= |raw|
  {
    if raw[0] != VERSION then Err(UnsupportedVersion(raw[0]))
    else
      var nonce: Word32 := raw[1..33];
      var ciphertext, mac := raw[33..|raw| - 32], raw[|raw| - 32..];
      var keys := DeriveKeys(p, key, nonce);
      if Mac(p, keys, nonce, ciphertext) != mac then Err(DecryptFailed)
      else Unpad(Keystreamed(p, keys, ciphertext))
  }

  function Decrypted(p: Primitives, key: Word32, payload: Bytes): Result<Bytes, CryptoError> {
    if payload != [] && payload[0] == HASH then Err(UnsupportedVersion(0))
    else if |payload| < MIN_ENCODED || |payload| > MAX_ENCODED then Err(DecryptFailed)
    else
      match Decoded(payload)
      case None => Err(DecryptFailed)
      case Some(raw) =>
        if |raw| < MIN_DECODED || |raw| > MAX_DECODED then Err(DecryptFailed)
        else DecryptedRaw(p, key, raw)
  }

  method Encrypt(p: Primitives, key: Word32, plaintext: Bytes, nonce: Word32) returns (r: Result<Bytes, CryptoError>)
    ensures r == Encrypted(p, key, plaintext, nonce)
  {
    var padded := Pad(plaintext);
    if padded.Err? {
      return Err(padded.error);
    }
    var keys := DeriveKeys(p, key, nonce);
    var buffer := new u8[|padded.value|](i requires 0 <= i < |padded.value| => padded.value[i]);
    assert buffer[..] == padded.value;
    ApplyKeystream(p, keys, buffer);
    var ciphertext := buffer[..];
    var mac := Mac(p, keys, nonce, ciphertext);
    var payload: Bytes := [VERSION];
    payload := payload + nonce;
    payload := payload + ciphertext;
    payload := payload + mac;
    var text := Base64Encode(payload);
    return Ok(text);
  }

  method Decrypt(p: Primitives, key: Word32, payload: Bytes) returns (r: Result<Bytes, CryptoError>)
    ensures r == Decrypted(p, key, payload)
  {
    if payload != [] && payload[0] == HASH {
      return Err(UnsupportedVersion(0));
    }
    if |payload| < MIN_ENCODED || |payload| > MAX_ENCODED {
      return Err(DecryptFailed);
    }
    var decoded := Decoded(payload);
    if decoded.None? {
      return Err(DecryptFailed);
    }
    var raw := decoded.value;
    if |raw| < MIN_DECODED || |raw| > MAX_DECODED {
      return Err(DecryptFailed);
    }
    if raw[0] != VERSION {
      return Err(UnsupportedVersion(raw[0]));
    }
    var nonce: Word32 := raw[1..33];
    var ciphertext, mac := raw[33..|raw| - 32], raw[|raw| - 32..];
    var keys := DeriveKeys(p, key, nonce);
    var authentic := ConstantTimeEq(Mac(p, keys, nonce, ciphertext), mac);
    if !authentic {
      return Err(DecryptFailed);
    }
    var buffer := new u8[|ciphertext|](i requires 0 <= i < |ciphertext| => ciphertext[i]);
    assert buffer[..] == ciphertext;
    ApplyKeystream(p, keys, buffer);
    return Unpad(buffer[..]);
  }
}
