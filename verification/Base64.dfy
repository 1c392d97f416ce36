/** Base64 with the standard alphabet and padding, and the decoder of section 4 of
    RFC 4648 that undoes it. */
module Base64 {
  import opened Basics

  type Sextet = x: int | 0 <= x < 64

  const PAD: u8 := 61

  function Char(i: Sextet): (c: u8)
    ensures c != PAD
  {
    if i < 26 then 65 + i
    else if i < 52 then 97 + (i - 26)
    else if i < 62 then 48 + (i - 52)
    else if i == 62 then 43
    else 47
  }

  function Index(c: u8): (r: Option<Sextet>)
    ensures r.Some? <==> exists i: Sextet :: Char(i) == c
    ensures r.Some? ==> Char(r.value) == c
    ensures forall i: Sextet :: Char(i) == c ==> r == Some(i)
  {
    var found: Option<Sextet> :=
      if 65 <= c <= 90 then Some(c - 65)
      else if 97 <= c <= 122 then Some(c - 97 + 26)
      else if 48 <= c <= 57 then Some(c - 48 + 52)
      else if c == 43 then Some(62)
      else if c == 47 then Some(63)
      else None;
    assert found.Some? ==> Char(found.value) == c;
    found
  }

  // --- encoding -------------------------------------------------------------------------------

  function At(chunk: Bytes, i: nat): u8 {
    if i < |chunk| then chunk[i] else 0
  }

  /** The 24 bits of a chunk, missing bytes as zero. */
  function Group(chunk: Bytes): nat {
    At(chunk, 0) * 0x1_0000 + At(chunk, 1) * 0x100 + At(chunk, 2)
  }

  function SextetOf(n: nat, i: nat): Sextet
    requires i < 4
  {
    (if i == 0 then n / 0x4_0000 else if i == 1 then n / 0x1000 else if i == 2 then n / 0x40 else n) % 64
  }

  function CharAt(chunk: Bytes, i: nat): u8
    requires i < 4
  {
    if i > |chunk| then PAD else Char(SextetOf(Group(chunk), i))
  }

  function EncodedChunk(chunk: Bytes): (s: Bytes)
    ensures |s| == 4
  {
    [CharAt(chunk, 0), CharAt(chunk, 1), CharAt(chunk, 2), CharAt(chunk, 3)]
  }

  function FirstChunk(b: Bytes): Bytes {
    if |b| < 3 then b else b[..3]
  }

  function Encoded(b: Bytes): (s: Bytes)
    ensures |s| == 4 * ((|b| + 2) / 3)
  {
    if b == [] then []
    else
      var chunk := FirstChunk(b);
      EncodedChunk(chunk) + Encoded(b[|chunk|..])
  }

  lemma EncodedStep(b: Bytes)
    requires b != []
    ensures FirstChunk(b) != [] && Encoded(b) == EncodedChunk(FirstChunk(b)) + Encoded(b[|FirstChunk(b)|..])
  {
  }

  method PushChunk(before: Bytes, chunk: Bytes) returns (out: Bytes)
    ensures out == before + EncodedChunk(chunk)
  {
    hide Group, SextetOf, Char;
    var n := Group(chunk);
    out := before;
    for i := 0 to 4
      invariant out == before + EncodedChunk(chunk)[..i]
    {
      if i > |chunk| {
        out := out + [PAD];
      } else {
        out := out + [Char(SextetOf(n, i))];
      }
    }
  }

  method Base64Encode(bytes: Bytes) returns (out: Bytes)
    ensures out == Encoded(bytes)
  {
    hide Encoded, EncodedChunk;
    out := [];
    var rest := bytes;
    while rest != []
      invariant out + Encoded(rest) == Encoded(bytes)
      decreases |rest|
    {
      var chunk := FirstChunk(rest);
      EncodedStep(rest);
      out := PushChunk(out, chunk);
      rest := rest[|chunk|..];
    }
    assert Encoded([]) == [];
  }

  // --- decoding ----------------------------------------------------------------------------------

  function HighByte(a: Sextet, b: Sextet): u8 {
    var x: int, y: int := a, b;
    x * 4 + y / 16
  }

  function MiddleByte(b: Sextet, c: Sextet): u8 {
    var x: int, y: int := b, c;
    x % 16 * 16 + y / 4
  }

  function LowByte(c: Sextet, d: Sextet): u8 {
    var x: int, y: int := c, d;
    x % 4 * 64 + y
  }

  /** One group of four characters. Padding is legal in the last group only, and the
      bits it leaves over must be zero. */
  function DecodedGroup(q: Bytes, last: bool): Option<Bytes>
    requires |q| == 4
  {
    match (Index(q[0]), Index(q[1]), Index(q[2]), Index(q[3]))
    case (Some(a), Some(b), Some(c), Some(d)) => Some([HighByte(a, b), MiddleByte(b, c), LowByte(c, d)])
    case (Some(a), Some(b), Some(c), None) =>
      if last && q[3] == PAD && c % 4 == 0 then Some([HighByte(a, b), MiddleByte(b, c)]) else None
    case (Some(a), Some(b), None, None) =>
      if last && q[2] == PAD && q[3] == PAD && b % 16 == 0 then Some([HighByte(a, b)]) else None
    case _ => None
  }

  function Decoded(s: Bytes): Option<Bytes> {
    if s == [] then Some([])
    else if |s| < 4 then None
    else
      match (DecodedGroup(s[..4], |s| == 4), Decoded(s[4..]))
      case (Some(chunk), Some(rest)) => Some(chunk + rest)
      case _ => None
  }

  lemma Sextets(chunk: Bytes)
    ensures var n := Group(chunk);
      && SextetOf(n, 0) == At(chunk, 0) / 4
      && SextetOf(n, 1) == At(chunk, 0) % 4 * 16 + At(chunk, 1) / 16
      && SextetOf(n, 2) == At(chunk, 1) % 16 * 4 + At(chunk, 2) / 64
      && SextetOf(n, 3) == At(chunk, 2) % 64
  {
    hide At;
    var x, y, z := At(chunk, 0), At(chunk, 1), At(chunk, 2);
    TopBits(x, y, z);
    MiddleBits(x, y, z);
  }

  lemma TopBits(x: u8, y: u8, z: u8)
    ensures (x * 0x1_0000 + y * 0x100 + z) / 0x4_0000 == x / 4
    ensures (x * 0x1_0000 + y * 0x100 + z) / 0x1000 % 64 == x % 4 * 16 + y / 16
  {
    var n := x * 0x1_0000 + y * 0x100 + z;
    DivMod(n, 0x4_0000, x / 4, x % 4 * 0x1_0000 + y * 0x100 + z);
    DivMod(n, 0x1000, x * 16 + y / 16, y % 16 * 0x100 + z);
    DivMod(x * 16 + y / 16, 64, x / 4, x % 4 * 16 + y / 16);
  }

  lemma MiddleBits(x: u8, y: u8, z: u8)
    ensures (x * 0x1_0000 + y * 0x100 + z) / 0x40 % 64 == y % 16 * 4 + z / 64
    ensures (x * 0x1_0000 + y * 0x100 + z) % 64 == z % 64
  {
    var n := x * 0x1_0000 + y * 0x100 + z;
    DivMod(n, 0x40, x * 1024 + y * 4 + z / 64, z % 64);
    DivMod(x * 1024 + y * 4 + z / 64, 64, x * 16 + y / 16, y % 16 * 4 + z / 64);
  }

  lemma BytesBack(x: u8, y: u8, z: u8)
    ensures HighByte(x / 4, x % 4 * 16 + y / 16) == x
    ensures MiddleByte(x % 4 * 16 + y / 16, y % 16 * 4 + z / 64) == y
    ensures LowByte(y % 16 * 4 + z / 64, z % 64) == z
  {
  }

  lemma SextetsBack(a: Sextet, b: Sextet, c: Sextet, d: Sextet)
    ensures HighByte(a, b) / 4 == a
    ensures HighByte(a, b) % 4 * 16 + MiddleByte(b, c) / 16 == b
    ensures MiddleByte(b, c) % 16 * 4 + LowByte(c, d) / 64 == c
    ensures LowByte(c, d) % 64 == d
    ensures b % 16 == 0 ==> HighByte(a, b) % 4 * 16 == b
    ensures c % 4 == 0 ==> MiddleByte(b, c) % 16 * 4 == c
  {
  }

  lemma PadIsNoDigit()
    ensures Index(PAD).None?
  {
  }

  lemma IndicesOf(chunk: Bytes)
    ensures forall i :: 0 <= i < 4 ==>
      Index(EncodedChunk(chunk)[i]) == if i > |chunk| then None else Some(SextetOf(Group(chunk), i))
    ensures forall i :: |chunk| < i < 4 ==> EncodedChunk(chunk)[i] == PAD
  {
    hide Char, Index, Group, SextetOf;
    PadIsNoDigit();
  }

  lemma GroupRoundTrip(chunk: Bytes, last: bool)
    requires 1 <= |chunk| <= 3 && (last || |chunk| == 3)
    ensures DecodedGroup(EncodedChunk(chunk), last) == Some(chunk)
  {
    hide Char, Index, Group, SextetOf, HighByte, MiddleByte, LowByte, EncodedChunk;
    PadIsNoDigit();
    IndicesOf(chunk);
    Sextets(chunk);
    BytesBack(At(chunk, 0), At(chunk, 1), At(chunk, 2));
    if |chunk| == 1 {
      assert chunk == [chunk[0]];
    } else if |chunk| == 2 {
      assert chunk == [chunk[0], chunk[1]];
    } else {
      assert chunk == [chunk[0], chunk[1], chunk[2]];
    }
  }

  lemma GroupCanonical(q: Bytes, last: bool)
    requires |q| == 4 && DecodedGroup(q, last).Some?
    ensures var chunk := DecodedGroup(q, last).value;
      1 <= |chunk| <= 3 && (last || |chunk| == 3) && EncodedChunk(chunk) == q
  {
    hide Char, Index, Group, SextetOf, HighByte, MiddleByte, LowByte;
    PadIsNoDigit();
    var chunk := DecodedGroup(q, last).value;
    Sextets(chunk);
    var a, b := Index(q[0]).value, Index(q[1]).value;
    if Index(q[2]).Some? && Index(q[3]).Some? {
      SextetsBack(a, b, Index(q[2]).value, Index(q[3]).value);
    } else if Index(q[2]).Some? {
      SextetsBack(a, b, Index(q[2]).value, 0);
    } else {
      SextetsBack(a, b, 0, 0);
    }
    assert q == [q[0], q[1], q[2], q[3]];
  }

  lemma NothingEncoded()
    ensures Encoded([]) == [] && Decoded([]) == Some([])
  {
  }

  lemma DecodedJoin(q: Bytes, rest: Bytes)
    requires |q| == 4
    ensures Decoded(q + rest) ==
      match (DecodedGroup(q, rest == []), Decoded(rest))
      case (Some(chunk), Some(more)) => Some(chunk + more)
      case _ => None
  {
    hide DecodedGroup;
    var s := q + rest;
    assert s[..4] == q && s[4..] == rest;
  }

  lemma DecodedParts(s: Bytes)
    requires s != [] && Decoded(s).Some?
    ensures |s| >= 4 && DecodedGroup(s[..4], |s| == 4).Some? && Decoded(s[4..]).Some?
    ensures Decoded(s).value == DecodedGroup(s[..4], |s| == 4).value + Decoded(s[4..]).value
    ensures |s| == 4 ==> Decoded(s[4..]).value == []
  {
    hide DecodedGroup;
  }

  lemma EncodedJoin(chunk: Bytes, rest: Bytes)
    requires 1 <= |chunk| <= 3 && (|chunk| < 3 ==> rest == [])
    ensures Encoded(chunk + rest) == EncodedChunk(chunk) + Encoded(rest)
  {
    hide EncodedChunk;
    assert FirstChunk(chunk + rest) == chunk;
    assert (chunk + rest)[|chunk|..] == rest;
  }

  /** Decoding undoes encoding, for every byte string. */
  lemma {:induction false} Base64RoundTrip(b: Bytes)
    ensures Decoded(Encoded(b)) == Some(b)
  {
    hide Encoded, EncodedChunk, DecodedGroup, Decoded;
    if b == [] {
      NothingEncoded();
    } else {
      var chunk := FirstChunk(b);
      var rest := b[|chunk|..];
      Base64RoundTrip(rest);
      GroupRoundTrip(chunk, rest == []);
      EncodedStep(b);
      DecodedJoin(EncodedChunk(chunk), Encoded(rest));
      assert chunk + rest == b;
    }
  }

  /** A string that decodes is the encoding of what it decodes to. */
  lemma {:induction false} Base64Canonical(s: Bytes)
    requires Decoded(s).Some?
    ensures Encoded(Decoded(s).value) == s
  {
    hide Encoded, EncodedChunk, DecodedGroup, Decoded;
    NothingEncoded();
    if s != [] {
      DecodedParts(s);
      Base64Canonical(s[4..]);
      GroupCanonical(s[..4], |s| == 4);
      EncodedJoin(DecodedGroup(s[..4], |s| == 4).value, Decoded(s[4..]).value);
      assert s == s[..4] + s[4..];
    }
  }

  /** Padding stands at the end only: two characters when the last chunk has one byte,
      one when it has two. */
  lemma {:induction false} PaddingExact(b: Bytes, i: nat)
    requires i < |Encoded(b)|
    ensures Encoded(b)[i] == PAD <==> i >= |Encoded(b)| - (3 - |b| % 3) % 3
  {
    hide Char, Group, SextetOf;
    var chunk := FirstChunk(b);
    var rest := b[|chunk|..];
    assert Encoded(b) == EncodedChunk(chunk) + Encoded(rest);
    if i >= 4 {
      PaddingExact(rest, i - 4);
      assert |rest| % 3 == |b| % 3;
    } else {
      ChunkPadding(chunk, i);
    }
  }

  lemma ChunkPadding(chunk: Bytes, i: nat)
    requires i < 4
    ensures EncodedChunk(chunk)[i] == PAD <==> i > |chunk|
  {
    hide Char;
  }
}
