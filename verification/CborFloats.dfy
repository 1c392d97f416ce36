/** The floats that occur under tags: what the shifts compute, that the encoder finds the
    narrower form whenever there is one, and the examples of RFC 8949. */
module CborFloats {
  import opened Basics
  import opened CborNumbers
  import opened Cbor
  import opened CborBytes

  lemma {:induction false} ShiftLeftIs(n: nat, count: nat)
    ensures ShiftLeft(n, count) == n * Pow2(count)
  {
    if count > 0 {
      ShiftLeftIs(n, count - 1);
      Doubled(n, Pow2(count - 1));
    }
  }

  lemma Doubled(n: nat, p: nat)
    ensures n * (2 * p) == 2 * (n * p)
  {
  }

  lemma {:induction false} ShiftRightIs(n: nat, count: nat)
    ensures ShiftRight(n, count) == n / Pow2(count)
  {
    if count > 0 {
      ShiftRightIs(n / 2, count - 1);
      Halved(n, Pow2(count - 1));
    }
  }

  lemma {:induction false} LowBitsAre(n: nat, width: nat)
    ensures LowBits(n, width) == n % Pow2(width)
  {
    if width > 0 {
      LowBitsAre(n / 2, width - 1);
      Halved(n, Pow2(width - 1));
    }
  }

  lemma Halved(n: nat, p: nat)
    requires p >= 1
    ensures n / 2 / p == n / (2 * p) && 2 * (n / 2 % p) + n % 2 == n % (2 * p)
  {
    Quotient(n / 2, p);
    var q, r := n / 2 / p, n / 2 % p;
    assert 2 * (p * q) == (2 * p) * q;
    DivMod(n, 2 * p, q, 2 * r + n % 2);
  }

  /** The powers the two narrow formats use. */
  lemma FormatPowers()
    ensures Pow2(5) == 32 && Pow2(8) == 256 && Pow2(10) == 1024 && Pow2(15) == 32768 && Pow2(16) == 65536
    ensures Pow2(23) == 8388608 && Pow2(29) == 536870912 && Pow2(31) == 2147483648 && Pow2(32) == 4294967296
    ensures Pow2(42) == 4398046511104
  {
    assert Pow2(5) == 32;
    assert Pow2(10) == 1024;
    assert Pow2(16) == 65536;
    assert Pow2(23) == 8388608;
    assert Pow2(29) == 536870912;
    assert Pow2(36) == 68719476736;
  }

  /** A payload with the bit that makes a NaN quiet; infinity has none. */
  function Quieted(payload: nat): nat {
    if 0 < payload < 0x8_0000_0000_0000 then payload + 0x8_0000_0000_0000 else payload
  }

  /** The double that a half-precision number is: in the normal range, infinite or not a
      number, zero, and below the normal range. */
  lemma WidenHalf(n: nat)
    ensures var sign, exponent, mantissa := n / 32768, n / 1024 % 32, n % 1024;
      && (0 < exponent < 31 ==> Widen(n, HALF_FORMAT) == Double(sign, exponent + 1008, mantissa * 4398046511104))
      && (exponent == 31 ==> Widen(n, HALF_FORMAT) == Double(sign, 2047, Quieted(mantissa * 4398046511104)))
      && (exponent == 0 && mantissa == 0 ==> Widen(n, HALF_FORMAT) == Double(sign, 0, 0))
      && (exponent == 0 && mantissa > 0 && TopBit(mantissa) < 10 ==>
            Widen(n, HALF_FORMAT) == Double(sign, 999 + TopBit(mantissa), ShiftLeft(mantissa, 52 - TopBit(mantissa))))
  {
    hide ShiftLeft, ShiftRight, LowBits, TopBit, Pow2, Double;
    ShiftRightIs(n, 15);
    ShiftRightIs(n, 10);
    LowBitsAre(n / 1024, 5);
    LowBitsAre(n, 10);
    ShiftLeftIs(n % 1024, 42);
    FormatPowers();
  }

  lemma ZeroDouble()
    ensures Double(0, 0, 0) == 0
  {
  }

  /** The same in single precision. */
  lemma WidenSingle(n: nat)
    ensures var sign, exponent, mantissa := n / 2147483648, n / 8388608 % 256, n % 8388608;
      && (0 < exponent < 255 ==> Widen(n, SINGLE_FORMAT) == Double(sign, exponent + 896, mantissa * 536870912))
      && (exponent == 255 ==> Widen(n, SINGLE_FORMAT) == Double(sign, 2047, Quieted(mantissa * 536870912)))
      && (exponent == 0 && mantissa == 0 ==> Widen(n, SINGLE_FORMAT) == Double(sign, 0, 0))
      && (exponent == 0 && mantissa > 0 && TopBit(mantissa) < 23 ==>
            Widen(n, SINGLE_FORMAT) == Double(sign, 874 + TopBit(mantissa), ShiftLeft(mantissa, 52 - TopBit(mantissa))))
  {
    hide ShiftLeft, ShiftRight, LowBits, TopBit, Pow2, Double;
    ShiftRightIs(n, 31);
    ShiftRightIs(n, 23);
    LowBitsAre(n / 8388608, 8);
    LowBitsAre(n, 23);
    ShiftLeftIs(n % 8388608, 29);
    FormatPowers();
  }

  /** A double cut to half precision: infinity and NaN kept, rebiased where the exponent
      fits, a zero where it is too large, and shifted down below the normal range. */
  lemma CutHalf(bits: u64)
    ensures var sign, exponent := bits / 0x8000_0000_0000_0000 * 32768, bits / 0x10_0000_0000_0000 % 2048;
      var mantissa := bits % 0x10_0000_0000_0000;
      && (exponent == 2047 ==> Cut(bits, HALF_FORMAT) == sign + 31744 + mantissa / 4398046511104)
      && (1009 <= exponent < 1039 ==>
            Cut(bits, HALF_FORMAT) == sign + (exponent - 1008) * 1024 + mantissa / 4398046511104)
      && (1039 <= exponent < 2047 ==> Cut(bits, HALF_FORMAT) == sign)
      && (exponent < 1009 ==>
            Cut(bits, HALF_FORMAT) == sign + ShiftRight(0x10_0000_0000_0000 + mantissa, 1051 - exponent))
  {
    hide ShiftLeft, ShiftRight, Pow2;
    var exponent := bits / 0x10_0000_0000_0000 % 2048;
    ShiftLeftIs(bits / 0x8000_0000_0000_0000, 15);
    ShiftRightIs(bits % 0x10_0000_0000_0000, 42);
    ShiftLeftIs(31, 10);
    if 1009 <= exponent {
      ShiftLeftIs(exponent - 1008, 10);
    }
    FormatPowers();
  }

  /** The same to single precision. */
  lemma CutSingle(bits: u64)
    ensures var sign, exponent := bits / 0x8000_0000_0000_0000 * 2147483648, bits / 0x10_0000_0000_0000 % 2048;
      var mantissa := bits % 0x10_0000_0000_0000;
      && (exponent == 2047 ==> Cut(bits, SINGLE_FORMAT) == sign + 2139095040 + mantissa / 536870912)
      && (897 <= exponent < 1151 ==>
            Cut(bits, SINGLE_FORMAT) == sign + (exponent - 896) * 8388608 + mantissa / 536870912)
      && (1151 <= exponent < 2047 ==> Cut(bits, SINGLE_FORMAT) == sign)
      && (exponent < 897 ==>
            Cut(bits, SINGLE_FORMAT) == sign + ShiftRight(0x10_0000_0000_0000 + mantissa, 926 - exponent))
  {
    hide ShiftLeft, ShiftRight, Pow2;
    var exponent := bits / 0x10_0000_0000_0000 % 2048;
    ShiftLeftIs(bits / 0x8000_0000_0000_0000, 31);
    ShiftRightIs(bits % 0x10_0000_0000_0000, 29);
    ShiftLeftIs(255, 23);
    if 897 <= exponent {
      ShiftLeftIs(exponent - 896, 23);
    }
    FormatPowers();
  }

  /** The examples of appendix A of RFC 8949: 1.0, 100000.0, 1.1 and infinity. */
  lemma FloatExamples()
    ensures Encode(Float(0x3FF0_0000_0000_0000)) == [0xF9, 0x3C, 0x00]
    ensures Encode(Float(0x40F8_6A00_0000_0000)) == [0xFA, 0x47, 0xC3, 0x50, 0x00]
    ensures Encode(Float(0x3FF1_9999_9999_999A)) == [0xFB, 0x3F, 0xF1, 0x99, 0x99, 0x99, 0x99, 0x99, 0x9A]
    ensures Encode(Float(0x7FF0_0000_0000_0000)) == [0xF9, 0x7C, 0x00]
  {
    ExampleOne();
    ExampleLarge();
    ExampleLong();
    ExampleInfinity();
  }

  /** A double goes out at the first of the three widths that has it. */
  lemma WidthsInTurn(bits: u64)
    ensures var half, single := Narrow(bits, HALF_FORMAT), Narrow(bits, SINGLE_FORMAT);
      Encode(Float(bits)) ==
        if half.Some? then [0xF9] + BigEndian(half.value, 2)
        else if single.Some? then [0xFA] + BigEndian(single.value, 4)
        else [0xFB] + BigEndian(bits, 8)
  {
    hide BigEndian, Narrow;
  }

  lemma ExampleOne()
    ensures Encode(Float(0x3FF0_0000_0000_0000)) == [0xF9, 0x3C, 0x00]
  {
    hide Pow2, BigEndian, Narrow, Encode;
    WidthsInTurn(0x3FF0_0000_0000_0000);
    OneIsHalf();
    HalfBytes();
  }

  lemma HalfBytes()
    ensures BigEndian(0x3C00, 2) == [0x3C, 0x00] && BigEndian(0x7C00, 2) == [0x7C, 0x00]
  {
    hide BigEndian;
    BigEndianIs([0x3C, 0x00]);
    BigEndianIs([0x7C, 0x00]);
  }

  /** The doubles of the examples, put together. */
  lemma DoubleValues()
    ensures Double(0, 1023, 0) == 0x3FF0_0000_0000_0000 && Double(0, 2047, 0) == 0x7FF0_0000_0000_0000
    ensures Double(0, 1023, 102 * 4398046511104) == 0x3FF1_9800_0000_0000
    ensures Double(0, 1023, 838860 * 536870912) == 0x3FF1_9999_8000_0000
    ensures Double(0, 1039, 4411392 * 536870912) == 0x40F8_6A00_0000_0000
  {
  }

  lemma OneIsHalf()
    ensures Narrow(0x3FF0_0000_0000_0000, HALF_FORMAT) == Some(0x3C00)
  {
    hide Pow2, Narrow, Widen, Cut, ShiftLeft, ShiftRight, TopBit, Quieted, Double;
    DoubleValues();
    CutHalf(0x3FF0_0000_0000_0000);
    WidenHalf(0x3C00);
    NarrowIs(0x3FF0_0000_0000_0000, HALF_FORMAT, 0x3C00, 0x3FF0_0000_0000_0000);
  }

  lemma ExampleLarge()
    ensures Encode(Float(0x40F8_6A00_0000_0000)) == [0xFA, 0x47, 0xC3, 0x50, 0x00]
  {
    hide Pow2, BigEndian, Narrow, Encode;
    WidthsInTurn(0x40F8_6A00_0000_0000);
    LargeIsNoHalf();
    LargeIsSingle();
    LargeBytes();
  }

  lemma LargeBytes()
    ensures BigEndian(0x47C3_5000, 4) == [0x47, 0xC3, 0x50, 0x00]
  {
    hide BigEndian;
    BigEndianIs([0x47, 0xC3, 0x50, 0x00]);
  }

  lemma LargeIsNoHalf()
    ensures Narrow(0x40F8_6A00_0000_0000, HALF_FORMAT) == None
  {
    hide Pow2, Narrow, Widen, Cut, ShiftLeft, ShiftRight, TopBit, Double, Quieted;
    CutHalf(0x40F8_6A00_0000_0000);
    WidenHalf(0);
    ZeroDouble();
    NarrowIs(0x40F8_6A00_0000_0000, HALF_FORMAT, 0, 0);
  }

  lemma LargeIsSingle()
    ensures Narrow(0x40F8_6A00_0000_0000, SINGLE_FORMAT) == Some(0x47C3_5000)
  {
    hide Pow2, Narrow, Widen, Cut, ShiftLeft, ShiftRight, TopBit, Quieted, Double;
    DoubleValues();
    CutSingle(0x40F8_6A00_0000_0000);
    WidenSingle(0x47C3_5000);
    NarrowIs(0x40F8_6A00_0000_0000, SINGLE_FORMAT, 0x47C3_5000, 0x40F8_6A00_0000_0000);
  }

  lemma ExampleLong()
    ensures Encode(Float(0x3FF1_9999_9999_999A)) == [0xFB, 0x3F, 0xF1, 0x99, 0x99, 0x99, 0x99, 0x99, 0x9A]
  {
    hide Pow2, BigEndian, Narrow, Encode;
    WidthsInTurn(0x3FF1_9999_9999_999A);
    LongIsNoHalf();
    LongIsNoSingle();
    LongBytes();
  }

  lemma LongIsNoHalf()
    ensures Narrow(0x3FF1_9999_9999_999A, HALF_FORMAT) == None
  {
    hide Pow2, Narrow, Widen, Cut, ShiftLeft, ShiftRight, TopBit, Quieted, Double;
    DoubleValues();
    CutHalf(0x3FF1_9999_9999_999A);
    WidenHalf(0x3C66);
    NarrowIs(0x3FF1_9999_9999_999A, HALF_FORMAT, 0x3C66, 0x3FF1_9800_0000_0000);
  }

  lemma LongIsNoSingle()
    ensures Narrow(0x3FF1_9999_9999_999A, SINGLE_FORMAT) == None
  {
    hide Pow2, Narrow, Widen, Cut, ShiftLeft, ShiftRight, TopBit, Quieted, Double;
    DoubleValues();
    CutSingle(0x3FF1_9999_9999_999A);
    WidenSingle(0x3F8C_CCCC);
    NarrowIs(0x3FF1_9999_9999_999A, SINGLE_FORMAT, 0x3F8C_CCCC, 0x3FF1_9999_8000_0000);
  }

  lemma LongBytes()
    ensures BigEndian(0x3FF1_9999_9999_999A, 8) == [0x3F, 0xF1, 0x99, 0x99, 0x99, 0x99, 0x99, 0x9A]
  {
    hide BigEndian;
    BigEndianIs([0x3F, 0xF1, 0x99, 0x99, 0x99, 0x99, 0x99, 0x9A]);
  }

  lemma ExampleInfinity()
    ensures Encode(Float(0x7FF0_0000_0000_0000)) == [0xF9, 0x7C, 0x00]
  {
    hide Pow2, BigEndian, Narrow, Encode;
    WidthsInTurn(0x7FF0_0000_0000_0000);
    InfinityIsHalf();
    HalfBytes();
  }

  lemma InfinityIsHalf()
    ensures Narrow(0x7FF0_0000_0000_0000, HALF_FORMAT) == Some(0x7C00)
  {
    hide Pow2, Narrow, Widen, Cut, ShiftLeft, ShiftRight, TopBit, Double;
    DoubleValues();
    CutHalf(0x7FF0_0000_0000_0000);
    WidenHalf(0x7C00);
    NarrowIs(0x7FF0_0000_0000_0000, HALF_FORMAT, 0x7C00, 0x7FF0_0000_0000_0000);
  }

  /** The narrow form is the cut, when it fits and converts back. */
  lemma NarrowIs(bits: u64, f: Format, cut: nat, back: u64)
    requires f == HALF_FORMAT || f == SINGLE_FORMAT
    requires Cut(bits, f) == cut && Widen(cut, f) == back && cut < 65536 * (if f == HALF_FORMAT then 1 else 65536)
    ensures Narrow(bits, f) == if back == bits then Some(cut) else None
  {
    hide Cut, Widen;
    FormatPowers();
  }

  // --- the narrower form is always found ------------------------------------------------------------------------

  predicate IsFormat(f: Format) {
    f == HALF_FORMAT || f == SINGLE_FORMAT
  }

  /** How many numbers the format has. */
  function Size(f: Format): nat {
    Pow2(1 + f.exponent + f.mantissa)
  }

  lemma DoubleParts(sign: nat, exponent: nat, mantissa: nat)
    requires sign < 2 && exponent < 2048 && mantissa < 0x10_0000_0000_0000
    ensures var bits := Double(sign, exponent, mantissa);
      && bits / 0x8000_0000_0000_0000 == sign && bits / 0x10_0000_0000_0000 % 2048 == exponent
      && bits % 0x10_0000_0000_0000 == mantissa
  {
    var bits := Double(sign, exponent, mantissa);
    DivMod(bits, 0x8000_0000_0000_0000, sign, exponent * 0x10_0000_0000_0000 + mantissa);
    DivMod(bits, 0x10_0000_0000_0000, sign * 2048 + exponent, mantissa);
    DivMod(sign * 2048 + exponent, 2048, sign, exponent);
  }

  lemma {:induction false} TopBitBounds(n: nat)
    requires n >= 1
    ensures Pow2(TopBit(n)) <= n < 2 * Pow2(TopBit(n))
  {
    if n >= 2 {
      TopBitBounds(n / 2);
    }
  }

  lemma {:induction false} TopBitBelow(n: nat, k: nat)
    requires 1 <= n < Pow2(k)
    ensures TopBit(n) < k
  {
    TopBitBounds(n);
    if k <= TopBit(n) {
      Pow2Grows(k, TopBit(n));
    }
  }

  /** A mantissa below the normal range, moved up to where a double has its leading bit. */
  lemma Normalised(mantissa: nat) returns (t: nat)
    requires 1 <= mantissa < 8388608
    ensures t == TopBit(mantissa) && t < 23
    ensures 0x10_0000_0000_0000 <= ShiftLeft(mantissa, 52 - t) < 0x20_0000_0000_0000
    ensures ShiftRight(ShiftLeft(mantissa, 52 - t), 52 - t) == mantissa
  {
    hide Pow2, TopBit, ShiftLeft, ShiftRight;
    t := TopBit(mantissa);
    FormatPowers();
    TopBitBounds(mantissa);
    TopBitBelow(mantissa, 23);
    Pow2Sum(t, 52 - t);
    Pow2At52();
    var p, r := Pow2(t), Pow2(52 - t);
    ShiftLeftIs(mantissa, 52 - t);
    ShiftRightIs(mantissa * r, 52 - t);
    Between(p, mantissa, r);
    DivMod(mantissa * r, r, mantissa, 0);
  }

  lemma Between(p: nat, n: nat, r: nat)
    requires p <= n < 2 * p && r >= 1
    ensures p * r <= n * r < 2 * (p * r)
  {
    assert n * r == p * r + (n - p) * r;
    assert 2 * (p * r) == n * r + (2 * p - n) * r;
  }

  lemma Pow2At52()
    ensures Pow2(52) == 0x10_0000_0000_0000
  {
    FormatPowers();
    Pow2Sum(29, 23);
  }

  lemma NothingLeft(count: nat)
    requires count >= 53
    ensures ShiftRight(0x10_0000_0000_0000, count) == 0
  {
    hide ShiftRight, Pow2;
    Pow2Grows(52, count);
    Pow2At52();
    ShiftRightIs(0x10_0000_0000_0000, count);
    DivMod(0x10_0000_0000_0000, Pow2(count), 0, 0x10_0000_0000_0000);
  }

  /** A double takes the mantissa without its leading bit. */
  lemma OneLess(sign: nat, exponent: nat, mantissa: nat)
    requires 0x10_0000_0000_0000 <= mantissa < 0x20_0000_0000_0000
    ensures Double(sign, exponent, mantissa) == Double(sign, exponent, mantissa - 0x10_0000_0000_0000)
  {
    DivMod(mantissa, 0x10_0000_0000_0000, 1, mantissa - 0x10_0000_0000_0000);
  }

  /** Cutting undoes widening, up to the bit that makes a NaN quiet. */
  lemma BackHalf(n: nat)
    requires n < 65536
    ensures var cut := Cut(Widen(n, HALF_FORMAT), HALF_FORMAT);
      if n / 1024 % 32 == 31 && 0 < n % 1024 < 512 then cut == n + 512 else cut == n
  {
    hide ShiftLeft, ShiftRight, TopBit, Pow2, Double, Widen, Cut;
    var sign, exponent, mantissa := n / 32768, n / 1024 % 32, n % 1024;
    assert n == sign * 32768 + exponent * 1024 + mantissa && sign < 2;
    var bits := Widen(n, HALF_FORMAT);
    WidenHalf(n);
    CutHalf(bits);
    FormatPowers();
    if exponent == 31 {
      var payload := mantissa * 4398046511104;
      DoubleParts(sign, 2047, Quieted(payload));
      assert Quieted(payload) == (if 0 < mantissa < 512 then mantissa + 512 else mantissa) * 4398046511104;
    } else if exponent > 0 {
      DoubleParts(sign, exponent + 1008, mantissa * 4398046511104);
    } else if mantissa > 0 {
      var t := Normalised(mantissa);
      TopBitBelow(mantissa, 10);
      var moved := ShiftLeft(mantissa, 52 - t);
      OneLess(sign, 999 + t, moved);
      DoubleParts(sign, 999 + t, moved - 0x10_0000_0000_0000);
    } else {
      DoubleParts(sign, 0, 0);
      NothingLeft(1051);
    }
  }

  /** The same in single precision. */
  lemma BackSingle(n: nat)
    requires n < 4294967296
    ensures var cut := Cut(Widen(n, SINGLE_FORMAT), SINGLE_FORMAT);
      if n / 8388608 % 256 == 255 && 0 < n % 8388608 < 4194304 then cut == n + 4194304 else cut == n
  {
    hide ShiftLeft, ShiftRight, TopBit, Pow2, Double, Widen, Cut;
    var sign, exponent, mantissa := n / 2147483648, n / 8388608 % 256, n % 8388608;
    assert n == sign * 2147483648 + exponent * 8388608 + mantissa && sign < 2;
    var bits := Widen(n, SINGLE_FORMAT);
    WidenSingle(n);
    CutSingle(bits);
    FormatPowers();
    if exponent == 255 {
      var payload := mantissa * 536870912;
      DoubleParts(sign, 2047, Quieted(payload));
      assert Quieted(payload) == (if 0 < mantissa < 4194304 then mantissa + 4194304 else mantissa) * 536870912;
    } else if exponent > 0 {
      DoubleParts(sign, exponent + 896, mantissa * 536870912);
    } else if mantissa > 0 {
      var t := Normalised(mantissa);
      TopBitBelow(mantissa, 23);
      var moved := ShiftLeft(mantissa, 52 - t);
      OneLess(sign, 874 + t, moved);
      DoubleParts(sign, 874 + t, moved - 0x10_0000_0000_0000);
    } else {
      DoubleParts(sign, 0, 0);
      NothingLeft(926);
    }
  }

  /** The encoder finds a narrower form exactly when some number of that format converts to
      the very bits. */
  lemma NarrowExact(bits: u64, f: Format)
    requires IsFormat(f)
    ensures Narrow(bits, f).Some? <==> exists n: nat :: n < Size(f) && Widen(n, f) == bits
  {
    hide Widen, Cut;
    if n: nat :| n < Size(f) && Widen(n, f) == bits {
      FormatPowers();
      CutConvertsBack(n, f);
    }
  }

  lemma CutConvertsBack(n: nat, f: Format)
    requires IsFormat(f) && n < Size(f)
    ensures var cut := Cut(Widen(n, f), f); cut < Size(f) && Widen(cut, f) == Widen(n, f)
  {
    hide Widen, Cut, ShiftLeft, TopBit, Pow2, Double;
    FormatPowers();
    if f == HALF_FORMAT {
      BackHalf(n);
      if n / 1024 % 32 == 31 && 0 < n % 1024 < 512 {
        WidenHalf(n);
        WidenHalf(n + 512);
      }
    } else {
      BackSingle(n);
      if n / 8388608 % 256 == 255 && 0 < n % 8388608 < 4194304 {
        WidenSingle(n);
        WidenSingle(n + 4194304);
      }
    }
  }
}
