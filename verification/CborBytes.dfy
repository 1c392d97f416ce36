/** The bytes themselves: what the encoder writes, in the numerals of RFC 8949. Round trips
    hold of any self-delimiting code; this is the one the digests are taken over. */
module CborBytes {
  import opened Basics
  import opened Hashing
  import opened Ordering
  import opened CborNumbers
  import opened Cbor
  import opened Canonical
  import opened CanonicalLaws

  /** The head of an item (section 3 of RFC 8949): the major type in the top three bits,
      and the argument in the shortest of the five forms. */
  predicate IsHead(b: Bytes, major: nat, arg: nat, length: nat) {
    && length <= |b|
    && (arg < 24 ==> length == 1 && b[0] == 32 * major + arg)
    && (24 <= arg < 256 ==> length == 2 && b[0] == 32 * major + 24 && b[1] == arg)
    && (256 <= arg < 65536 ==> length == 3 && b[0] == 32 * major + 25 && 256 * (b[1] as int) + b[2] as int == arg)
    && (65536 <= arg < 4294967296 ==>
          length == 5 && b[0] == 32 * major + 26 && Word(b[1..5]) == arg)
    && (4294967296 <= arg ==>
          length == 9 && b[0] == 32 * major + 27 && 4294967296 * Word(b[1..5]) + Word(b[5..9]) == arg)
  }

  /** Four bytes, the most significant first. */
  function Word(b: Bytes): int
    requires |b| == 4
  {
    16777216 * (b[0] as int) + 65536 * (b[1] as int) + 256 * (b[2] as int) + b[3] as int
  }

  lemma ReadWord(b: Bytes)
    requires |b| >= 4
    ensures FromBigEndian(b[..4]) == Word(b[..4])
  {
    ReadOne(b, 3);
    ReadOne(b, 2);
    ReadOne(b, 1);
    ReadOne(b, 0);
    assert b[..0] == [];
  }

  lemma ReadOne(b: Bytes, k: nat)
    requires k < |b|
    ensures FromBigEndian(b[..k + 1]) == 256 * FromBigEndian(b[..k]) + b[k] as int
  {
    assert b[..k + 1][..k] == b[..k];
  }

  lemma ReadLong(b: Bytes)
    requires |b| == 8
    ensures FromBigEndian(b) == 4294967296 * Word(b[..4]) + Word(b[4..])
  {
    hide FromBigEndian;
    ReadWord(b);
    ReadOne(b, 7);
    ReadOne(b, 6);
    ReadOne(b, 5);
    ReadOne(b, 4);
    assert b[..8] == b;
  }

  lemma HeadExact(major: Major, arg: nat, rest: Bytes) returns (length: nat)
    requires arg < LIMIT
    ensures IsHead(Head(major, arg) + rest, major, arg, length) && length == |Head(major, arg)|
    ensures Head(major, arg)[0] / 32 == major
  {
    hide FromBigEndian, BigEndian, Pow256;
    var b := Head(major, arg) + rest;
    length := |Head(major, arg)|;
    Pow256Values();
    if 24 <= arg < 256 {
      BigEndianRoundTrip(arg, 1);
      ReadShort(BigEndian(arg, 1));
      assert b[1] == BigEndian(arg, 1)[0];
    } else if 256 <= arg < 65536 {
      BigEndianRoundTrip(arg, 2);
      ReadShort(BigEndian(arg, 2));
      assert b[1] == BigEndian(arg, 2)[0] && b[2] == BigEndian(arg, 2)[1];
    } else if 65536 <= arg < 4294967296 {
      BigEndianRoundTrip(arg, 4);
      ReadWord(BigEndian(arg, 4));
      assert b[1..5] == BigEndian(arg, 4) == BigEndian(arg, 4)[..4];
    } else if 4294967296 <= arg {
      BigEndianRoundTrip(arg, 8);
      ReadLong(BigEndian(arg, 8));
      assert b[1..5] == BigEndian(arg, 8)[..4] && b[5..9] == BigEndian(arg, 8)[4..];
    }
  }

  lemma ReadShort(b: Bytes)
    ensures |b| == 1 ==> FromBigEndian(b) == b[0]
    ensures |b| == 2 ==> FromBigEndian(b) == 256 * (b[0] as int) + b[1] as int
  {
    if |b| == 1 {
      assert b[..0] == [];
    } else if |b| == 2 {
      ReadOne(b, 1);
      ReadOne(b, 0);
      assert b[..2] == b && b[..0] == [];
    }
  }

  // --- every item ------------------------------------------------------------------------------------------

  function ItemBytes(items: seq<Value>): (parts: seq<Bytes>)
    ensures |parts| == |items| && forall i :: 0 <= i < |items| ==> parts[i] == Encode(items[i])
  {
    seq(|items|, i requires 0 <= i < |items| => Encode(items[i]))
  }

  /** Keys and values in turn. */
  function EntryBytes(entries: seq<Entry>): (parts: seq<Bytes>)
    ensures |parts| == |entries|
    ensures forall i :: 0 <= i < |entries| ==> parts[i] == Encode(entries[i].key) + Encode(entries[i].val)
  {
    seq(|entries|, i requires 0 <= i < |entries| => Encode(entries[i].key) + Encode(entries[i].val))
  }

  lemma {:induction false} ConcatFirst(parts: seq<Bytes>)
    requires parts != []
    ensures Concat(parts) == parts[0] + Concat(parts[1..])
    decreases |parts|
  {
    var n := |parts| - 1;
    if n > 0 {
      ConcatFirst(parts[..n]);
      assert parts[..n][1..] == parts[1..][..n - 1];
      assert parts[0] + Concat(parts[..n][1..]) + parts[n] == parts[0] + (Concat(parts[1..][..n - 1]) + parts[n]);
    } else {
      assert Concat(parts[..0]) + parts[0] == parts[0] + Concat([]);
    }
  }

  lemma {:induction false} ItemsInTurn(items: seq<Value>)
    ensures EncodeItems(items) == Concat(ItemBytes(items))
    decreases |items|
  {
    hide Encode;
    if items != [] {
      ItemsInTurn(items[1..]);
      ConcatFirst(ItemBytes(items));
      assert ItemBytes(items)[1..] == ItemBytes(items[1..]);
    }
  }

  lemma {:induction false} EntriesInTurn(entries: seq<Entry>)
    ensures EncodeEntries(entries) == Concat(EntryBytes(entries))
    decreases |entries|
  {
    hide Encode;
    if entries != [] {
      EntriesInTurn(entries[1..]);
      ConcatFirst(EntryBytes(entries));
      assert EntryBytes(entries)[1..] == EntryBytes(entries[1..]);
    }
  }

  /** The major type of RFC 8949 and the argument of an item that has one. */
  function MajorType(v: Value): nat {
    match v
    case Integer(n) => if n >= 0 then 0 else 1
    case ByteString(_) => 2
    case Text(_) => 3
    case Array(_) => 4
    case Map(_) => 5
    case Tagged(_, _) => 6
    case _ => 7
  }

  function Argument(v: Value): int {
    match v
    case Integer(n) => if n >= 0 then n else -1 - n
    case ByteString(b) => |b|
    case Text(t) => |t|
    case Array(items) => |items|
    case Map(entries) => |entries|
    case Tagged(number, _) => number
    case _ => 0
  }

  /** What follows the head: the bytes or the text as they are, the items one after the
      other, keys and values in turn, the tagged item. */
  function Content(v: Value): Bytes {
    match v
    case ByteString(b) => b
    case Text(t) => t
    case Array(items) => Concat(ItemBytes(items))
    case Map(entries) => Concat(EntryBytes(entries))
    case Tagged(_, content) => Encode(content)
    case _ => []
  }

  /** What the encoder writes: head and content for the first seven major types, and one
      byte for false, true and null. */
  lemma EncodedExact(v: Value) returns (length: nat)
    requires WellFormed(v)
    ensures MajorType(v) < 7 ==>
      IsHead(Encode(v), MajorType(v), Argument(v), length) && Encode(v)[length..] == Content(v)
    ensures v == Boolean(false) ==> Encode(v) == [0xF4]
    ensures v == Boolean(true) ==> Encode(v) == [0xF5]
    ensures v == Null ==> Encode(v) == [0xF6]
    ensures Encode(v)[0] / 32 == MajorType(v)
  {
    hide IsHead, ItemBytes, EntryBytes, Concat, Head, BigEndian, Narrow, EncodeItems, EncodeEntries;
    length := 0;
    match v {
      case Integer(n) => length := HeadExact(if n >= 0 then 0 else 1, if n >= 0 then n else -1 - n, []);
      case ByteString(b) => length := HeadExact(2, |b|, b);
      case Text(t) => length := HeadExact(3, |t|, t);
      case Array(items) => ItemsInTurn(items); length := HeadExact(4, |items|, Content(v));
      case Map(entries) => EntriesInTurn(entries); length := HeadExact(5, |entries|, Content(v));
      case Tagged(number, content) => length := HeadExact(6, number, Encode(content));
      case _ =>
    }
    if MajorType(v) < 7 {
      HeadAlone(v);
    }
  }

  lemma HeadAlone(v: Value)
    ensures v.Integer? ==> Encode(v) + [] == Encode(v)
  {
  }

  // --- numerals as bytes -------------------------------------------------------------------------------------

  lemma BigEndianIs(b: Bytes)
    ensures |b| == 2 ==> BigEndian(256 * (b[0] as int) + b[1] as int, 2) == b
    ensures |b| == 4 ==> BigEndian(Word(b), 4) == b
    ensures |b| == 8 ==> BigEndian(4294967296 * Word(b[..4]) + Word(b[4..]), 8) == b
  {
    hide BigEndian, FromBigEndian;
    FromBigEndianInverse(b);
    if |b| == 2 {
      ReadShort(b);
    } else if |b| == 4 {
      ReadWord(b);
      assert b[..4] == b;
    } else if |b| == 8 {
      ReadLong(b);
    }
  }
}
