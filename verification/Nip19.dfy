/** The TLV layer of NIP-19 entities: record streams, and the `nprofile` and `naddr`
    payloads read out of them. The bech32 string around a stream is not modelled. */
module Nip19 {
  import opened Basics
  import opened Cbor

  datatype TlvError = Bech32TooLong | InvalidBech32 | InvalidPublicKey

  datatype Record = Record(tag: u8, value: Bytes)

  type PublicKey = b: Bytes | |b| == 32 witness seq(32, i => 0)

  type Curve = PublicKey -> bool

  const SPECIAL: u8 := 0
  const RELAY: u8 := 1
  const AUTHOR: u8 := 2
  const KIND: u8 := 3

  // --- records ----------------------------------------------------------------------------------

  function Pushed(out: Bytes, r: Record): Result<Bytes, TlvError> {
    if |r.value| > 255 then Err(Bech32TooLong) else Ok(out + [r.tag, |r.value|] + r.value)
  }

  function PushedAll(out: Bytes, rs: seq<Record>): Result<Bytes, TlvError> {
    if rs == [] then Ok(out)
    else
      match PushedAll(out, rs[..|rs| - 1])
      case Err(e) => Err(e)
      case Ok(before) => Pushed(before, rs[|rs| - 1])
  }

  function Parsed(bytes: Bytes): (r: Result<seq<Record>, TlvError>)
    ensures r.Err? ==> r.error == InvalidBech32
  {
    if bytes == [] then Ok([])
    else if |bytes| < 2 || |bytes| - 2 < bytes[1] then Err(InvalidBech32)
    else
      match Parsed(bytes[2 + bytes[1]..])
      case Err(e) => Err(e)
      case Ok(rest) => Ok([Record(bytes[0], bytes[2..2 + bytes[1]])] + rest)
  }

  method ParseTlv(stream: Bytes) returns (r: Result<seq<Record>, TlvError>)
    ensures r == Parsed(stream)
  {
    var records: seq<Record> := [];
    var bytes := stream;
    while bytes != []
      invariant Parsed(stream).Ok? <==> Parsed(bytes).Ok?
      invariant Parsed(stream).Ok? ==> Parsed(stream).value == records + Parsed(bytes).value
      decreases |bytes|
    {
      var tag := bytes[0];
      if |bytes| < 2 {
        return Err(InvalidBech32);
      }
      var len := bytes[1];
      if |bytes| - 2 < len {
        return Err(InvalidBech32);
      }
      records := records + [Record(tag, bytes[2..2 + len])];
      bytes := bytes[2 + len..];
    }
    assert records + [] == records;
    return Ok(records);
  }

  // --- values -------------------------------------------------------------------------------------

  function TlvPubkey(curve: Curve, value: Bytes): Result<PublicKey, TlvError> {
    if |value| != 32 then Err(InvalidBech32)
    else if !curve(value) then Err(InvalidPublicKey)
    else Ok(value)
  }

  function TlvString(value: Bytes): Result<Bytes, TlvError> {
    if ValidUtf8(value) then Ok(value) else Err(InvalidBech32)
  }

  function TlvRelay(value: Bytes): Result<Bytes, TlvError> {
    if !IsAscii(value) then Err(InvalidBech32) else TlvString(value)
  }

  function TlvKind(value: Bytes): Result<u16, TlvError> {
    if |value| != 4 || FromBigEndian(value) >= 0x1_0000 then Err(InvalidBech32) else Ok(FromBigEndian(value))
  }

  // --- entities -----------------------------------------------------------------------------------

  datatype Nprofile = Nprofile(pubkey: PublicKey, relays: seq<Bytes>)

  datatype Naddr = Naddr(identifier: Bytes, pubkey: PublicKey, kind: u16, relays: seq<Bytes>)

  function RelayRecords(relays: seq<Bytes>): (rs: seq<Record>)
    ensures |rs| == |relays| && forall i :: 0 <= i < |rs| ==> rs[i] == Record(RELAY, relays[i])
  {
    seq(|relays|, i requires 0 <= i < |relays| => Record(RELAY, relays[i]))
  }

  function NprofileRecords(p: Nprofile): seq<Record> {
    [Record(SPECIAL, p.pubkey)] + RelayRecords(p.relays)
  }

  function NaddrRecords(a: Naddr): seq<Record> {
    [Record(SPECIAL, a.identifier)] + RelayRecords(a.relays)
    + [Record(AUTHOR, a.pubkey), Record(KIND, BigEndian(a.kind, 4))]
  }

  /** Fields seen so far. The first record of a singular kind wins. */
  datatype Fields = Fields(identifier: Option<Bytes>, pubkey: Option<PublicKey>, kind: Option<u16>, relays: seq<Bytes>)

  const NOTHING := Fields(None, None, None, [])

  function TakeRelay(f: Fields, value: Bytes): Result<Fields, TlvError> {
    match TlvRelay(value)
    case Err(e) => Err(e)
    case Ok(relay) => Ok(f.(relays := f.relays + [relay]))
  }

  function TakePubkey(curve: Curve, f: Fields, value: Bytes): Result<Fields, TlvError> {
    match TlvPubkey(curve, value)
    case Err(e) => Err(e)
    case Ok(key) => Ok(f.(pubkey := Some(key)))
  }

  function NprofileTake(curve: Curve, f: Fields, r: Record): Result<Fields, TlvError> {
    if r.tag == SPECIAL && f.pubkey.None? then TakePubkey(curve, f, r.value)
    else if r.tag == RELAY then TakeRelay(f, r.value)
    else Ok(f)
  }

  function NaddrTake(curve: Curve, f: Fields, r: Record): Result<Fields, TlvError> {
    if r.tag == SPECIAL && f.identifier.None? then
      match TlvString(r.value)
      case Err(e) => Err(e)
      case Ok(text) => Ok(f.(identifier := Some(text)))
    else if r.tag == RELAY then TakeRelay(f, r.value)
    else if r.tag == AUTHOR && f.pubkey.None? then TakePubkey(curve, f, r.value)
    else if r.tag == KIND && f.kind.None? then
      match TlvKind(r.value)
      case Err(e) => Err(e)
      case Ok(kind) => Ok(f.(kind := Some(kind)))
    else Ok(f)
  }

  type Take = (Fields, Record) -> Result<Fields, TlvError>

  function TakeAll(take: Take, f: Fields, rs: seq<Record>): Result<Fields, TlvError>
    decreases |rs|
  {
    if rs == [] then Ok(f)
    else
      match take(f, rs[0])
      case Err(e) => Err(e)
      case Ok(next) => TakeAll(take, next, rs[1..])
  }

  function ForNprofile(curve: Curve): Take { (f, r) => NprofileTake(curve, f, r) }

  function ForNaddr(curve: Curve): Take { (f, r) => NaddrTake(curve, f, r) }

  function NprofileOf(f: Fields): Result<Nprofile, TlvError> {
    if f.pubkey.None? then Err(InvalidBech32) else Ok(Nprofile(f.pubkey.value, f.relays))
  }

  function NaddrOf(f: Fields): Result<Naddr, TlvError> {
    if f.identifier.None? || f.pubkey.None? || f.kind.None? then Err(InvalidBech32)
    else Ok(Naddr(f.identifier.value, f.pubkey.value, f.kind.value, f.relays))
  }

  function NprofileFrom(curve: Curve, rs: seq<Record>): Result<Nprofile, TlvError> {
    match TakeAll(ForNprofile(curve), NOTHING, rs)
    case Err(e) => Err(e)
    case Ok(f) => NprofileOf(f)
  }

  function NaddrFrom(curve: Curve, rs: seq<Record>): Result<Naddr, TlvError> {
    match TakeAll(ForNaddr(curve), NOTHING, rs)
    case Err(e) => Err(e)
    case Ok(f) => NaddrOf(f)
  }

  function NprofileDecoded(curve: Curve, bytes: Bytes): Result<Nprofile, TlvError> {
    match Parsed(bytes)
    case Err(e) => Err(e)
    case Ok(rs) => NprofileFrom(curve, rs)
  }

  function NaddrDecoded(curve: Curve, bytes: Bytes): Result<Naddr, TlvError> {
    match Parsed(bytes)
    case Err(e) => Err(e)
    case Ok(rs) => NaddrFrom(curve, rs)
  }

  method EncodeNprofile(p: Nprofile) returns (r: Result<Bytes, TlvError>)
    ensures r == PushedAll([], NprofileRecords(p))
  {
    ghost var all := NprofileRecords(p);
    assert all[..1][..0] == [] && all[..1] == [all[0]];
    r := Pushed([], Record(SPECIAL, p.pubkey));
    for i := 0 to |p.relays|
      invariant r.Ok? && r == PushedAll([], all[..i + 1])
    {
      assert all[..i + 2][..i + 1] == all[..i + 1];
      r := Pushed(r.value, Record(RELAY, p.relays[i]));
      if r.Err? {
        RefusalStands([], all, i + 2);
        return;
      }
    }
    assert all[..|all|] == all;
  }

  method EncodeNaddr(a: Naddr) returns (r: Result<Bytes, TlvError>)
    ensures r == PushedAll([], NaddrRecords(a))
  {
    ghost var all := NaddrRecords(a);
    var n := |a.relays|;
    assert all[..1][..0] == [] && all[..1] == [all[0]];
    r := Pushed([], Record(SPECIAL, a.identifier));
    if r.Err? {
      RefusalStands([], all, 1);
      return;
    }
    for i := 0 to n
      invariant r.Ok? && r == PushedAll([], all[..i + 1])
    {
      assert all[..i + 2][..i + 1] == all[..i + 1];
      r := Pushed(r.value, Record(RELAY, a.relays[i]));
      if r.Err? {
        RefusalStands([], all, i + 2);
        return;
      }
    }
    assert all[..n + 2][..n + 1] == all[..n + 1];
    r := Pushed(r.value, Record(AUTHOR, a.pubkey));
    assert all[..n + 3][..n + 2] == all[..n + 2] && all[..n + 3] == all;
    r := Pushed(r.value, Record(KIND, BigEndian(a.kind, 4)));
  }

  lemma {:induction false} RefusalStands(out: Bytes, rs: seq<Record>, n: nat)
    requires n <= |rs| && PushedAll(out, rs[..n]).Err?
    ensures PushedAll(out, rs) == PushedAll(out, rs[..n])
    decreases |rs|
  {
    if n < |rs| {
      assert rs[..|rs| - 1][..n] == rs[..n];
      RefusalStands(out, rs[..|rs| - 1], n);
    } else {
      assert rs[..n] == rs;
    }
  }

  method DecodeNaddr(curve: Curve, bytes: Bytes) returns (r: Result<Naddr, TlvError>)
    ensures r == NaddrDecoded(curve, bytes)
  {
    var parsed := ParseTlv(bytes);
    if parsed.Err? {
      return Err(parsed.error);
    }
    var records := parsed.value;
    var identifier: Option<Bytes>, pubkey: Option<PublicKey>, kind: Option<u16> := None, None, None;
    var relays: seq<Bytes> := [];
    for i := 0 to |records|
      invariant TakeAll(ForNaddr(curve), NOTHING, records)
             == TakeAll(ForNaddr(curve), Fields(identifier, pubkey, kind, relays), records[i..])
    {
      var tag, value := records[i].tag, records[i].value;
      assert records[i..][1..] == records[i + 1..];
      if tag == SPECIAL && identifier.None? {
        var text := TlvString(value);
        if text.Err? {
          return Err(text.error);
        }
        identifier := Some(text.value);
      } else if tag == RELAY {
        var relay := TlvRelay(value);
        if relay.Err? {
          return Err(relay.error);
        }
        relays := relays + [relay.value];
      } else if tag == AUTHOR && pubkey.None? {
        var key := TlvPubkey(curve, value);
        if key.Err? {
          return Err(key.error);
        }
        pubkey := Some(key.value);
      } else if tag == KIND && kind.None? {
        var number := TlvKind(value);
        if number.Err? {
          return Err(number.error);
        }
        kind := Some(number.value);
      }
    }
    return NaddrOf(Fields(identifier, pubkey, kind, relays));
  }

  method DecodeNprofile(curve: Curve, bytes: Bytes) returns (r: Result<Nprofile, TlvError>)
    ensures r == NprofileDecoded(curve, bytes)
  {
    var parsed := ParseTlv(bytes);
    if parsed.Err? {
      return Err(parsed.error);
    }
    var records := parsed.value;
    var pubkey: Option<PublicKey> := None;
    var relays: seq<Bytes> := [];
    for i := 0 to |records|
      invariant TakeAll(ForNprofile(curve), NOTHING, records)
             == TakeAll(ForNprofile(curve), Fields(None, pubkey, None, relays), records[i..])
    {
      var tag, value := records[i].tag, records[i].value;
      assert records[i..][1..] == records[i + 1..];
      if tag == SPECIAL && pubkey.None? {
        var key := TlvPubkey(curve, value);
        if key.Err? {
          return Err(key.error);
        }
        pubkey := Some(key.value);
      } else if tag == RELAY {
        var relay := TlvRelay(value);
        if relay.Err? {
          return Err(relay.error);
        }
        relays := relays + [relay.value];
      }
    }
    return NprofileOf(Fields(None, pubkey, None, relays));
  }
}
