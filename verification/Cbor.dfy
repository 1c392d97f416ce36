/** CBOR data items, the encoder that writes definite lengths and shortest heads, and
    a decoder that accepts every head width (section 3 of RFC 8949). */
module Cbor {
  import opened Basics
  import opened CborNumbers

  datatype Value =
    | Integer(n: int)
    | ByteString(bytes: Bytes)
    | Text(utf8: Bytes)
    | Float(bits: u64)
    | Boolean(b: bool)
    | Null
    | Tagged(number: u64, content: Value)
    | Array(items: seq<Value>)
    | Map(entries: seq<Entry>)

  datatype Entry = Entry(key: Value, val: Value)

  const LIMIT: int := 0x1_0000_0000_0000_0000

  predicate Continuation(b: u8) { 0x80 <= b <= 0xBF }

  /** Well-formed UTF-8 (section 4 of RFC 3629). */
  predicate ValidUtf8(s: Bytes)
    decreases |s|
  {
    || s == []
    || (s[0] < 0x80 && ValidUtf8(s[1..]))
    || (|s| >= 2 && 0xC2 <= s[0] <= 0xDF && Continuation(s[1]) && ValidUtf8(s[2..]))
    || (|s| >= 3 && 0xE0 <= s[0] <= 0xEF && Continuation(s[1]) && Continuation(s[2])
        && (s[0] == 0xE0 ==> s[1] >= 0xA0) && (s[0] == 0xED ==> s[1] <= 0x9F) && ValidUtf8(s[3..]))
    || (|s| >= 4 && 0xF0 <= s[0] <= 0xF4 && Continuation(s[1]) && Continuation(s[2]) && Continuation(s[3])
        && (s[0] == 0xF0 ==> s[1] >= 0x90) && (s[0] == 0xF4 ==> s[1] <= 0x8F) && ValidUtf8(s[4..]))
  }

  predicate IsAscii(s: Bytes) {
    forall i :: 0 <= i < |s| ==> s[i] < 128
  }

  lemma {:induction false} AsciiIsUtf8(s: Bytes)
    requires IsAscii(s)
    ensures ValidUtf8(s)
  {
    if s != [] {
      AsciiIsUtf8(s[1..]);
    }
  }

  /** Values that exist: integers in CBOR's range, lengths that fit a head, text that
      is UTF-8, big integers that are too wide for an integer. */
  predicate WellFormed(v: Value)
    decreases v
  {
    match v
    case Integer(n) => -LIMIT <= n < LIMIT
    case ByteString(b) => |b| < LIMIT
    case Text(t) => |t| < LIMIT && ValidUtf8(t)
    case Tagged(number, content) =>
      WellFormed(content) && (IsBignumTag(number) ==> content.ByteString? && IsBignum(number, content.bytes))
    case Array(items) => |items| < LIMIT && forall i :: 0 <= i < |items| ==> WellFormed(items[i])
    case Map(entries) =>
      |entries| < LIMIT && forall i :: 0 <= i < |entries| ==> WellFormed(entries[i].key) && WellFormed(entries[i].val)
    case _ => true
  }

  // --- encoding --------------------------------------------------------------------------

  type Major = m: int | 0 <= m < 7

  function Head(major: Major, arg: nat): (b: Bytes)
    ensures b != []
  {
    if arg < 24 then [32 * major + arg]
    else if arg < 0x100 then [32 * major + 24] + BigEndian(arg, 1)
    else if arg < 0x1_0000 then [32 * major + 25] + BigEndian(arg, 2)
    else if arg < 0x1_0000_0000 then [32 * major + 26] + BigEndian(arg, 4)
    else [32 * major + 27] + BigEndian(arg, 8)
  }

  const FALSE: u8 := 0xF4
  const TRUE: u8 := 0xF5
  const NULL: u8 := 0xF6
  const HALF: u8 := 0xF9
  const SINGLE: u8 := 0xFA
  const DOUBLE: u8 := 0xFB

  function Encode(v: Value): (b: Bytes)
    ensures b != []
    decreases v
  {
    match v
    case Integer(n) => if n >= 0 then Head(0, n) else Head(1, -1 - n)
    case ByteString(b) => Head(2, |b|) + b
    case Text(t) => Head(3, |t|) + t
    case Array(items) => Head(4, |items|) + EncodeItems(items)
    case Map(entries) => Head(5, |entries|) + EncodeEntries(entries)
    case Tagged(number, content) => Head(6, number) + Encode(content)
    case Boolean(b) => [if b then TRUE else FALSE]
    case Null => [NULL]
    case Float(bits) => EncodeFloat(bits)
  }

  /** The shortest width that loses nothing. */
  function EncodeFloat(bits: u64): (b: Bytes)
    ensures b != []
  {
    if Narrow(bits, HALF_FORMAT).Some? then [HALF] + BigEndian(Narrow(bits, HALF_FORMAT).value, 2)
    else if Narrow(bits, SINGLE_FORMAT).Some? then [SINGLE] + BigEndian(Narrow(bits, SINGLE_FORMAT).value, 4)
    else [DOUBLE] + BigEndian(bits, 8)
  }

  function EncodeItems(items: seq<Value>): Bytes
    decreases items
  {
    if items == [] then [] else Encode(items[0]) + EncodeItems(items[1..])
  }

  function EncodeEntries(entries: seq<Entry>): Bytes
    decreases entries
  {
    if entries == [] then [] else EncodeEntry(entries[0]) + EncodeEntries(entries[1..])
  }

  function EncodeEntry(e: Entry): Bytes
    decreases e
  {
    Encode(e.key) + Encode(e.val)
  }

  // --- decoding --------------------------------------------------------------------------

  /** Reads an argument of `width` bytes after the initial byte. */
  function ReadArgument(b: Bytes, width: nat): (r: Option<(nat, Bytes)>)
    requires b != []
    ensures r.Some? ==> |r.value.1| < |b|
  {
    if |b| < 1 + width then None else Some((FromBigEndian(b[1..1 + width]), b[1 + width..]))
  }

  function DecodeHead(b: Bytes): (r: Option<(nat, Bytes)>)
    requires b != []
    ensures r.Some? ==> |r.value.1| < |b|
  {
    var info := b[0] % 32;
    if info < 24 then Some((info, b[1..]))
    else if info == 24 then ReadArgument(b, 1)
    else if info == 25 then ReadArgument(b, 2)
    else if info == 26 then ReadArgument(b, 4)
    else if info == 27 then ReadArgument(b, 8)
    else None
  }

  function DecodeSimple(b: Bytes): (r: Option<(Value, Bytes)>)
    requires b != []
    ensures r.Some? ==> |r.value.1| < |b|
  {
    if b[0] == FALSE then Some((Boolean(false), b[1..]))
    else if b[0] == TRUE then Some((Boolean(true), b[1..]))
    else if b[0] == NULL then Some((Null, b[1..]))
    else if b[0] == HALF && |b| >= 3 then Some((Float(Widen(FromBigEndian(b[1..3]), HALF_FORMAT)), b[3..]))
    else if b[0] == SINGLE && |b| >= 5 then Some((Float(Widen(FromBigEndian(b[1..5]), SINGLE_FORMAT)), b[5..]))
    else if b[0] == DOUBLE && |b| >= 9 then Some((Float(ReadDouble(b[1..9])), b[9..]))
    else None
  }

  function ReadDouble(b: Bytes): u64
    requires |b| == 8
  {
    FromBigEndianBound(b);
    Pow256Values();
    FromBigEndian(b)
  }

  /** A tagged item as read: the two big-integer tags take bytes only, and a magnitude
      that an integer can hold becomes one. */
  function Retagged(number: u64, content: Value): Option<Value> {
    if !IsBignumTag(number) then Some(Tagged(number, content))
    else if !content.ByteString? then None
    else
      var b := StripZeros(content.bytes);
      var n := FromBigEndian(b);
      if |b| > 16 then None
      else if n < LIMIT then Some(Integer(if number == POSITIVE then n else -1 - n))
      else if number == NEGATIVE && n >= 0x8000_0000_0000_0000_0000_0000_0000_0000 then None
      else Some(Tagged(number, ByteString(b)))
  }

  /** One data item from the front of `b`, and what follows it. */
  function Decode(b: Bytes): (r: Option<(Value, Bytes)>)
    ensures r.Some? ==> |r.value.1| < |b|
    decreases |b|, 0
  {
    if b == [] then None
    else if b[0] >= 0xE0 then DecodeSimple(b)
    else
      match DecodeHead(b)
      case None => None
      case Some((arg, rest)) => DecodeBody(b[0] / 32, arg, rest)
  }

  function DecodeBody(major: Major, arg: nat, rest: Bytes): (r: Option<(Value, Bytes)>)
    ensures r.Some? ==> |r.value.1| <= |rest|
    decreases |rest|, 3
  {
    match major
    case 0 => Some((Integer(arg), rest))
    case 1 => Some((Integer(-1 - arg), rest))
    case 2 => if arg <= |rest| then Some((ByteString(rest[..arg]), rest[arg..])) else None
    case 3 => if arg <= |rest| && ValidUtf8(rest[..arg]) then Some((Text(rest[..arg]), rest[arg..])) else None
    case 4 =>
      (match DecodeItems(arg, rest)
       case None => None
       case Some((items, tail)) => Some((Array(items), tail)))
    case 5 =>
      (match DecodeEntries(arg, rest)
       case None => None
       case Some((entries, tail)) => Some((Map(entries), tail)))
    case _ =>
      match Decode(rest)
      case None => None
      case Some((content, tail)) =>
        if arg >= LIMIT then None
        else
          match Retagged(arg, content)
          case None => None
          case Some(v) => Some((v, tail))
  }

  function DecodeItems(count: nat, b: Bytes): (r: Option<(seq<Value>, Bytes)>)
    ensures r.Some? ==> |r.value.1| <= |b| && |r.value.0| == count
    decreases |b|, 2, count
  {
    if count == 0 then Some(([], b))
    else
      match Decode(b)
      case None => None
      case Some((item, rest)) =>
        match DecodeItems(count - 1, rest)
        case None => None
        case Some((items, tail)) => Some(([item] + items, tail))
  }

  function DecodeEntry(b: Bytes): (r: Option<(Entry, Bytes)>)
    ensures r.Some? ==> |r.value.1| < |b|
    decreases |b|, 1
  {
    match Decode(b)
    case None => None
    case Some((key, rest)) =>
      match Decode(rest)
      case None => None
      case Some((val, tail)) => Some((Entry(key, val), tail))
  }

  function DecodeEntries(count: nat, b: Bytes): (r: Option<(seq<Entry>, Bytes)>)
    ensures r.Some? ==> |r.value.1| <= |b| && |r.value.0| == count
    decreases |b|, 2, count
  {
    if count == 0 then Some(([], b))
    else
      match DecodeEntry(b)
      case None => None
      case Some((entry, rest)) =>
        match DecodeEntries(count - 1, rest)
        case None => None
        case Some((entries, tail)) => Some(([entry] + entries, tail))
  }

  // --- the decoder inverts the encoder ------------------------------------------------------

  lemma HeadRoundTrip(major: Major, arg: nat, rest: Bytes)
    requires arg < LIMIT
    ensures Head(major, arg)[0] / 32 == major && Head(major, arg)[0] < 0xE0
    ensures DecodeHead(Head(major, arg) + rest) == Some((arg, rest))
  {
    Pow256Values();
    var b := Head(major, arg) + rest;
    var width := if arg < 24 then 0 else if arg < 0x100 then 1 else if arg < 0x1_0000 then 2
                 else if arg < 0x1_0000_0000 then 4 else 8;
    if arg >= 24 {
      BigEndianRoundTrip(arg, width);
      assert b[1..1 + width] == BigEndian(arg, width);
    }
    assert b[1 + width..] == rest;
  }

  lemma {:induction false} RoundTrip(v: Value, rest: Bytes)
    requires WellFormed(v)
    ensures Decode(Encode(v) + rest) == Some((v, rest))
    decreases v, 0
  {
    var b := Encode(v) + rest;
    match v {
      case Integer(n) =>
        HeadRoundTrip(if n >= 0 then 0 else 1, if n >= 0 then n else -1 - n, rest);
      case ByteString(s) => HeadRoundTrip(2, |s|, s + rest); Regroup(Head(2, |s|), s, rest); TakeDrop(s, rest);
      case Text(s) => HeadRoundTrip(3, |s|, s + rest); Regroup(Head(3, |s|), s, rest); TakeDrop(s, rest);
      case Float(bits) => FloatRoundTrip(bits, rest);
      case Boolean(_) => TakeDrop(Encode(v), rest);
      case Null => TakeDrop(Encode(v), rest);
      case Tagged(number, content) =>
        HeadRoundTrip(6, number, Encode(content) + rest);
        Regroup(Head(6, number), Encode(content), rest);
        RoundTrip(content, rest);
        RetaggedExact(number, content);
      case Array(items) =>
        HeadRoundTrip(4, |items|, EncodeItems(items) + rest);
        Regroup(Head(4, |items|), EncodeItems(items), rest);
        ItemsRoundTrip(items, rest);
      case Map(entries) =>
        HeadRoundTrip(5, |entries|, EncodeEntries(entries) + rest);
        Regroup(Head(5, |entries|), EncodeEntries(entries), rest);
        EntriesRoundTrip(entries, rest);
    }
  }

  lemma FloatRoundTrip(bits: u64, rest: Bytes)
    ensures EncodeFloat(bits)[0] >= 0xE0 && DecodeSimple(EncodeFloat(bits) + rest) == Some((Float(bits), rest))
  {
    Pow256Values();
    SmallFormats();
    hide Narrow, Widen, BigEndian, FromBigEndian, Pow2, Pow256;
    var s := EncodeFloat(bits);
    var b := s + rest;
    if Narrow(bits, HALF_FORMAT).Some? {
      BigEndianRoundTrip(Narrow(bits, HALF_FORMAT).value, 2);
      assert b[1..3] == s[1..] && b[3..] == rest;
    } else if Narrow(bits, SINGLE_FORMAT).Some? {
      BigEndianRoundTrip(Narrow(bits, SINGLE_FORMAT).value, 4);
      assert b[1..5] == s[1..] && b[5..] == rest;
    } else {
      BigEndianRoundTrip(bits, 8);
      assert b[1..9] == s[1..] && b[9..] == rest;
    }
  }

  lemma SmallFormats()
    ensures Pow2(1 + HALF_FORMAT.exponent + HALF_FORMAT.mantissa) == 0x1_0000
    ensures Pow2(1 + SINGLE_FORMAT.exponent + SINGLE_FORMAT.mantissa) == 0x1_0000_0000
  {
    assert Pow2(8) == 256;
    assert Pow2(16) == 0x1_0000;
    assert Pow2(24) == 0x100_0000;
    assert Pow2(32) == 0x1_0000_0000;
  }

  /** What reading makes of a tag: a value that exists comes back as it is, and whatever
      comes back exists. */
  lemma RetaggedExact(number: u64, content: Value)
    requires WellFormed(content)
    ensures WellFormed(Tagged(number, content)) ==> Retagged(number, content) == Some(Tagged(number, content))
    ensures Retagged(number, content).Some? ==> WellFormed(Retagged(number, content).value)
  {
    if IsBignumTag(number) && content.ByteString? {
      WideExact(StripZeros(content.bytes));
    }
  }

  lemma Regroup(a: Bytes, b: Bytes, c: Bytes)
    ensures (a + b) + c == a + (b + c)
  {
  }

  lemma TakeDrop(a: Bytes, b: Bytes)
    ensures (a + b)[..|a|] == a && (a + b)[|a|..] == b
  {
  }

  lemma {:induction false} ItemsRoundTrip(items: seq<Value>, rest: Bytes)
    requires forall i :: 0 <= i < |items| ==> WellFormed(items[i])
    ensures DecodeItems(|items|, EncodeItems(items) + rest) == Some((items, rest))
    decreases items, 1
  {
    hide Encode, Decode, WellFormed;
    if items == [] {
      assert EncodeItems(items) + rest == rest;
    } else {
      Regroup(Encode(items[0]), EncodeItems(items[1..]), rest);
      RoundTrip(items[0], EncodeItems(items[1..]) + rest);
      ItemsRoundTrip(items[1..], rest);
      assert items == [items[0]] + items[1..];
    }
  }

  lemma {:induction false} EntriesRoundTrip(entries: seq<Entry>, rest: Bytes)
    requires forall i :: 0 <= i < |entries| ==> WellFormed(entries[i].key) && WellFormed(entries[i].val)
    ensures DecodeEntries(|entries|, EncodeEntries(entries) + rest) == Some((entries, rest))
    decreases entries, 1
  {
    hide Encode, EncodeEntry, DecodeEntry, WellFormed;
    if entries == [] {
      assert EncodeEntries(entries) + rest == rest;
    } else {
      Regroup(EncodeEntry(entries[0]), EncodeEntries(entries[1..]), rest);
      EntryRoundTrip(entries[0], EncodeEntries(entries[1..]) + rest);
      EntriesRoundTrip(entries[1..], rest);
      assert entries == [entries[0]] + entries[1..];
    }
  }

  lemma {:induction false} EntryRoundTrip(e: Entry, rest: Bytes)
    requires WellFormed(e.key) && WellFormed(e.val)
    ensures DecodeEntry(EncodeEntry(e) + rest) == Some((e, rest))
    decreases e, 0
  {
    Regroup(Encode(e.key), Encode(e.val), rest);
    RoundTrip(e.key, Encode(e.val) + rest);
    RoundTrip(e.val, rest);
  }

  /** Encodings are self-delimiting: from the front of a stream they come apart in
      one way only. In particular, two values never share an encoding. */
  lemma EncodeInjective(v: Value, r: Bytes, w: Value, s: Bytes)
    requires WellFormed(v) && WellFormed(w)
    requires Encode(v) + r == Encode(w) + s
    ensures v == w && r == s
  {
    RoundTrip(v, r);
    RoundTrip(w, s);
  }

  // --- what the decoder returns exists ------------------------------------------------------

  lemma HeadBound(b: Bytes)
    requires b != [] && DecodeHead(b).Some?
    ensures DecodeHead(b).value.0 < LIMIT
  {
    Pow256Values();
    var info := b[0] % 32;
    if info >= 24 {
      var width := if info == 24 then 1 else if info == 25 then 2 else if info == 26 then 4 else 8;
      FromBigEndianBound(b[1..1 + width]);
    }
  }

  lemma {:induction false} DecodedWellFormed(b: Bytes)
    requires Decode(b).Some?
    ensures WellFormed(Decode(b).value.0)
    decreases |b|, 0
  {
    if b[0] < 0xE0 {
      HeadBound(b);
      var (arg, rest) := DecodeHead(b).value;
      match b[0] / 32 {
        case 4 => DecodedItemsWellFormed(arg, rest);
        case 5 => DecodedEntriesWellFormed(arg, rest);
        case 6 =>
          DecodedWellFormed(rest);
          RetaggedExact(arg, Decode(rest).value.0);
        case _ =>
      }
    }
  }

  lemma {:induction false} DecodedItemsWellFormed(count: nat, b: Bytes)
    requires DecodeItems(count, b).Some?
    ensures forall v :: v in DecodeItems(count, b).value.0 ==> WellFormed(v)
    decreases |b|, 2, count
  {
    if count > 0 {
      DecodedWellFormed(b);
      DecodedItemsWellFormed(count - 1, Decode(b).value.1);
    }
  }

  lemma {:induction false} DecodedEntriesWellFormed(count: nat, b: Bytes)
    requires DecodeEntries(count, b).Some?
    ensures forall e :: e in DecodeEntries(count, b).value.0 ==> WellFormed(e.key) && WellFormed(e.val)
    decreases |b|, 2, count
  {
    if count > 0 {
      DecodedWellFormed(b);
      DecodedWellFormed(Decode(b).value.1);
      DecodedEntriesWellFormed(count - 1, DecodeEntry(b).value.1);
    }
  }
}
