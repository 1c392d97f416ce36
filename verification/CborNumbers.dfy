/** The numbers CBOR writes at more than one width. A float is held as the 64 bits of a
    double and written at the shortest width that gives those bits back; a big integer
    is a byte string without leading zeros. */
module CborNumbers {
  import opened Basics

  /** Exponent width, mantissa width and bias of a binary format narrower than a double. */
  datatype Format = Format(exponent: nat, mantissa: nat, bias: nat)

  const HALF_FORMAT := Format(5, 10, 15)
  const SINGLE_FORMAT := Format(8, 23, 127)

  /** Sign, exponent and mantissa of a double put together. */
  function Double(sign: nat, exponent: nat, mantissa: nat): u64 {
    sign % 2 * 0x8000_0000_0000_0000 + exponent % 2048 * 0x10_0000_0000_0000 + mantissa % 0x10_0000_0000_0000
  }

  /** The position of the highest bit set. */
  function TopBit(n: nat): nat {
    if n < 2 then 0 else 1 + TopBit(n / 2)
  }

  function ShiftLeft(n: nat, count: int): nat
    decreases if count > 0 then count else 0
  {
    if count <= 0 then n else 2 * ShiftLeft(n, count - 1)
  }

  function ShiftRight(n: nat, count: int): nat
    decreases if count > 0 then count else 0
  {
    if count <= 0 then n else ShiftRight(n / 2, count - 1)
  }

  function LowBits(n: nat, width: nat): nat {
    if width == 0 then 0 else 2 * LowBits(n / 2, width - 1) + n % 2
  }

  function Clamp(n: int): nat {
    if n >= 0 then n else 0
  }

  /** The narrower number `n`, as the bits of the double it converts to. A NaN comes out
      quiet. */
  function Widen(n: nat, f: Format): u64 {
    var sign := ShiftRight(n, f.exponent + f.mantissa);
    var exponent := LowBits(ShiftRight(n, f.mantissa), f.exponent);
    var mantissa := LowBits(n, f.mantissa);
    if exponent == Pow2(f.exponent) - 1 then
      var payload := ShiftLeft(mantissa, 52 - f.mantissa);
      Double(sign, 2047, if 0 < payload < 0x8_0000_0000_0000 then payload + 0x8_0000_0000_0000 else payload)
    else if exponent == 0 && mantissa == 0 then Double(sign, 0, 0)
    else if exponent == 0 then
      Double(sign, Clamp(1024 + TopBit(mantissa) - f.bias - f.mantissa), ShiftLeft(mantissa, 52 - TopBit(mantissa)))
    else Double(sign, Clamp(exponent + 1023 - f.bias), ShiftLeft(mantissa, 52 - f.mantissa))
  }

  /** The bits cut down to the narrower format, whether or not anything is lost. */
  function Cut(bits: u64, f: Format): nat {
    var sign := ShiftLeft(bits / 0x8000_0000_0000_0000, f.exponent + f.mantissa);
    var exponent := bits / 0x10_0000_0000_0000 % 2048;
    var mantissa := bits % 0x10_0000_0000_0000;
    var kept := ShiftRight(mantissa, 52 - f.mantissa);
    var top := Pow2(f.exponent) - 1;
    if exponent == 2047 then sign + ShiftLeft(top, f.mantissa) + kept
    else if 1024 <= exponent + f.bias < 1023 + top then
      sign + ShiftLeft(exponent + f.bias - 1023, f.mantissa) + kept
    else if exponent + f.bias < 1024 then
      sign + ShiftRight(0x10_0000_0000_0000 + mantissa, 1076 - exponent - f.bias - f.mantissa)
    else sign
  }

  /** The narrower form, when converting it back gives the very same bits. */
  function Narrow(bits: u64, f: Format): (r: Option<nat>)
    ensures r.Some? ==> r.value < Pow2(1 + f.exponent + f.mantissa) && Widen(r.value, f) == bits
  {
    var cut := Cut(bits, f);
    if cut < Pow2(1 + f.exponent + f.mantissa) && Widen(cut, f) == bits then Some(cut) else None
  }

  // --- big integers ---------------------------------------------------------------------------

  const POSITIVE: nat := 2
  const NEGATIVE: nat := 3

  predicate IsBignumTag(number: nat) { number == POSITIVE || number == NEGATIVE }

  function StripZeros(b: Bytes): (s: Bytes)
    ensures |s| <= |b| && (s != [] ==> s[0] != 0)
  {
    if b != [] && b[0] == 0 then StripZeros(b[1..]) else b
  }

  /** The magnitudes kept as tagged bytes: past 64 bits, within 128, and within 127 below
      zero. */
  predicate IsBignum(number: nat, b: Bytes) {
    9 <= |b| <= 16 && b[0] != 0 && (number == NEGATIVE && |b| == 16 ==> b[0] < 128)
  }

  /** A big-endian number lies between its first byte's multiples. */
  lemma {:induction false} FirstByteBounds(b: Bytes)
    requires b != []
    ensures b[0] * Pow256(|b| - 1) <= FromBigEndian(b) < (b[0] + 1) * Pow256(|b| - 1)
  {
    if |b| > 1 {
      hide FromBigEndian, Pow256;
      var before, p := FromBigEndian(b[..|b| - 1]), Pow256(|b| - 2);
      FirstByteBounds(b[..|b| - 1]);
      LastByte(b);
      Scaled(b[0], p, before, b[|b| - 1]);
    } else {
      OneByte(b);
    }
  }

  lemma LastByte(b: Bytes)
    requires |b| > 1
    ensures FromBigEndian(b) == 256 * FromBigEndian(b[..|b| - 1]) + b[|b| - 1]
    ensures Pow256(|b| - 1) == 256 * Pow256(|b| - 2) && b[..|b| - 1][0] == b[0]
  {
  }

  lemma OneByte(b: Bytes)
    requires |b| == 1
    ensures FromBigEndian(b) == b[0] && Pow256(0) == 1
  {
    assert FromBigEndian(b[..0]) == 0;
  }

  lemma Scaled(first: u8, p: nat, before: nat, last: u8)
    requires first * p <= before < (first + 1) * p
    ensures first * (256 * p) <= 256 * before + last < (first + 1) * (256 * p)
  {
    assert first * (256 * p) == 256 * (first * p);
    assert (first + 1) * (256 * p) == 256 * ((first + 1) * p);
  }

  lemma {:induction false} Pow256Grows(m: nat, n: nat)
    requires m <= n
    ensures 1 <= Pow256(m) <= Pow256(n)
  {
    if m < n {
      Pow256Grows(m, n - 1);
    } else if m > 0 {
      Pow256Grows(m - 1, m - 1);
    }
  }

  /** Stripped bytes hold a number of 64 bits exactly when there are at most eight. */
  lemma WideExact(b: Bytes)
    requires b == [] || b[0] != 0
    ensures FromBigEndian(b) < 0x1_0000_0000_0000_0000 <==> |b| <= 8
    ensures |b| <= 16 ==> (FromBigEndian(b) < 0x8000_0000_0000_0000_0000_0000_0000_0000 <==> |b| < 16 || b[0] < 128)
  {
    Pow256Values();
    if b != [] {
      FirstByteBounds(b);
      FromBigEndianBound(b);
      if |b| <= 8 {
        Pow256Grows(|b|, 8);
      } else {
        Pow256Grows(8, |b| - 1);
      }
      if |b| < 16 {
        Pow256Grows(|b|, 15);
      }
    }
    assert Pow256(16) == 256 * Pow256(15);
  }
}
