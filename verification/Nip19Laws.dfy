/** Streams parse back exactly, entities decode by "the first of each kind", and records
    a decoder does not know change nothing. */
module Nip19Laws {
  import opened Basics
  import opened Cbor
  import opened Nip19

  // --- streams ------------------------------------------------------------------------------------

  predicate Expressible(rs: seq<Record>) {
    forall i :: 0 <= i < |rs| ==> |rs[i].value| <= 255
  }

  function Stream(rs: seq<Record>): Bytes
    requires Expressible(rs)
  {
    if rs == [] then [] else [rs[0].tag, |rs[0].value|] + rs[0].value + Stream(rs[1..])
  }

  lemma {:induction false} StreamAppend(rs: seq<Record>, r: Record)
    requires Expressible(rs + [r])
    ensures Expressible(rs) && Stream(rs + [r]) == Stream(rs) + [r.tag, |r.value|] + r.value
  {
    assert forall i :: 0 <= i < |rs| ==> rs[i] == (rs + [r])[i];
    if rs == [] {
      assert [] + [r] == [r];
      assert [r][1..] == [];
      assert |(rs + [r])[0].value| <= 255;
      assert Stream([r]) == [r.tag, |r.value|] + r.value + Stream([]);
    } else {
      assert (rs + [r])[1..] == rs[1..] + [r];
      StreamAppend(rs[1..], r);
    }
  }

  /** Pushing record after record builds the stream, or refuses at the first value
      over 255 bytes. */
  lemma {:induction false} PushedExact(rs: seq<Record>)
    ensures PushedAll([], rs) == if Expressible(rs) then Ok(Stream(rs)) else Err(Bech32TooLong)
  {
    if rs != [] {
      var before, last := rs[..|rs| - 1], rs[|rs| - 1];
      PushedExact(before);
      assert rs == before + [last];
      if Expressible(rs) {
        StreamAppend(before, last);
      } else if Expressible(before) {
        assert |last.value| > 255;
      }
    }
  }

  lemma OneRecord(r: Record, rest: Bytes)
    requires |r.value| <= 255
    ensures var s := [r.tag, |r.value|] + r.value + rest;
      Parsed(s) == match Parsed(rest) case Err(e) => Err(e) case Ok(rs) => Ok([r] + rs)
  {
    var s, n := [r.tag, |r.value|] + r.value + rest, |r.value|;
    assert s[2..2 + n] == r.value && s[2 + n..] == rest;
  }

  lemma {:induction false} StreamParses(rs: seq<Record>)
    requires Expressible(rs)
    ensures Parsed(Stream(rs)) == Ok(rs)
  {
    if rs != [] {
      var rest := Stream(rs[1..]);
      StreamParses(rs[1..]);
      OneRecord(rs[0], rest);
      assert rs == [rs[0]] + rs[1..];
    }
  }

  lemma HeadAndRest(bytes: Bytes, n: nat)
    requires 2 + n <= |bytes|
    ensures bytes == [bytes[0], bytes[1]] + bytes[2..2 + n] + bytes[2 + n..]
  {
  }

  lemma StreamOf(r: Record, rs: seq<Record>)
    requires |r.value| <= 255 && Expressible(rs)
    ensures Expressible([r] + rs) && Stream([r] + rs) == [r.tag, |r.value|] + r.value + Stream(rs)
  {
    assert ([r] + rs)[1..] == rs;
  }

  lemma {:induction false} ParsedIsStream(bytes: Bytes)
    requires Parsed(bytes).Ok?
    ensures Expressible(Parsed(bytes).value) && Stream(Parsed(bytes).value) == bytes
    decreases |bytes|
  {
    if bytes != [] {
      var rest := bytes[2 + bytes[1]..];
      ParsedIsStream(rest);
      StreamOf(Record(bytes[0], bytes[2..2 + bytes[1]]), Parsed(rest).value);
      HeadAndRest(bytes, bytes[1]);
    }
  }

  /** `parse_tlv` inverts any sequence of pushes, and succeeds on concatenations of
      whole records and nothing else. */
  lemma ParseExact(bytes: Bytes, rs: seq<Record>)
    ensures Parsed(bytes) == Ok(rs) <==> PushedAll([], rs) == Ok(bytes)
  {
    PushedExact(rs);
    if Parsed(bytes) == Ok(rs) {
      ParsedIsStream(bytes);
    }
    if Expressible(rs) {
      StreamParses(rs);
    }
  }

  lemma ParseNeverTooLong(bytes: Bytes)
    ensures Parsed(bytes).Err? ==> Parsed(bytes).error == InvalidBech32
    ensures Parsed(bytes).Err? <==> forall rs :: PushedAll([], rs) != Ok(bytes)
  {
    if Parsed(bytes).Ok? {
      ParseExact(bytes, Parsed(bytes).value);
    } else {
      forall rs
        ensures PushedAll([], rs) != Ok(bytes)
      {
        ParseExact(bytes, rs);
      }
    }
  }

  // --- what a decoder reads ---------------------------------------------------------------------------

  /** The value of the first record of a kind. */
  function First(rs: seq<Record>, tag: u8): Option<Bytes> {
    if rs == [] then None else if rs[0].tag == tag then Some(rs[0].value) else First(rs[1..], tag)
  }

  /** Every value of a kind, in order. */
  function Every(rs: seq<Record>, tag: u8): seq<Bytes> {
    if rs == [] then [] else (if rs[0].tag == tag then [rs[0].value] else []) + Every(rs[1..], tag)
  }

  predicate AllAscii(relays: seq<Bytes>) {
    forall i :: 0 <= i < |relays| ==> IsAscii(relays[i])
  }

  predicate PubkeyOk(curve: Curve, value: Option<Bytes>) {
    value.Some? && |value.value| == 32 && curve(value.value)
  }

  ghost predicate NprofileReads(curve: Curve, f: Fields, rs: seq<Record>) {
    && AllAscii(Every(rs, RELAY))
    && (f.pubkey.None? && First(rs, SPECIAL).Some? ==> PubkeyOk(curve, First(rs, SPECIAL)))
  }

  ghost predicate NprofileEnds(f: Fields, rs: seq<Record>, out: Fields) {
    && out.relays == f.relays + Every(rs, RELAY)
    && out.pubkey == if f.pubkey.Some? then f.pubkey else First(rs, SPECIAL)
  }

  lemma {:induction false} NprofileTakes(curve: Curve, f: Fields, rs: seq<Record>)
    ensures var r := TakeAll(ForNprofile(curve), f, rs);
      (r.Ok? <==> NprofileReads(curve, f, rs)) && (r.Ok? ==> NprofileEnds(f, rs, r.value))
    decreases |rs|
  {
    if rs != [] {
      var taken := NprofileTake(curve, f, rs[0]);
      if rs[0].tag == RELAY {
        assert Every(rs, RELAY)[0] == rs[0].value;
        assert Every(rs, RELAY)[1..] == Every(rs[1..], RELAY);
        if IsAscii(rs[0].value) {
          AsciiIsUtf8(rs[0].value);
        }
      } else {
        assert Every(rs, RELAY) == Every(rs[1..], RELAY);
      }
      if taken.Ok? {
        NprofileTakes(curve, taken.value, rs[1..]);
      }
    }
  }

  /** An `nprofile` stream names the first special record, and every relay. */
  lemma NprofileExact(curve: Curve, rs: seq<Record>, p: Nprofile)
    ensures NprofileFrom(curve, rs) == Ok(p) <==>
      && PubkeyOk(curve, First(rs, SPECIAL)) && p.pubkey == First(rs, SPECIAL).value
      && p.relays == Every(rs, RELAY) && AllAscii(p.relays)
  {
    NprofileTakes(curve, NOTHING, rs);
    assert [] + Every(rs, RELAY) == Every(rs, RELAY);
  }

  predicate KindOk(value: Option<Bytes>) {
    value.Some? && |value.value| == 4 && FromBigEndian(value.value) < 0x1_0000
  }

  ghost predicate NaddrReads(curve: Curve, f: Fields, rs: seq<Record>) {
    && AllAscii(Every(rs, RELAY))
    && (f.identifier.None? && First(rs, SPECIAL).Some? ==> ValidUtf8(First(rs, SPECIAL).value))
    && (f.pubkey.None? && First(rs, AUTHOR).Some? ==> PubkeyOk(curve, First(rs, AUTHOR)))
    && (f.kind.None? && First(rs, KIND).Some? ==> KindOk(First(rs, KIND)))
  }

  ghost predicate NaddrEnds(f: Fields, rs: seq<Record>, out: Fields) {
    && out.relays == f.relays + Every(rs, RELAY)
    && out.identifier == (if f.identifier.Some? then f.identifier else First(rs, SPECIAL))
    && out.pubkey == (if f.pubkey.Some? then f.pubkey else First(rs, AUTHOR))
    && (f.kind.Some? ==> out.kind == f.kind)
    && (f.kind.None? ==> out.kind.Some? == First(rs, KIND).Some?)
    && (f.kind.None? && out.kind.Some? ==> out.kind.value == FromBigEndian(First(rs, KIND).value))
  }

  lemma {:induction false} NaddrTakes(curve: Curve, f: Fields, rs: seq<Record>)
    ensures var r := TakeAll(ForNaddr(curve), f, rs);
      (r.Ok? <==> NaddrReads(curve, f, rs)) && (r.Ok? ==> NaddrEnds(f, rs, r.value))
    decreases |rs|
  {
    hide ValidUtf8, FromBigEndian;
    if rs != [] {
      var taken := NaddrTake(curve, f, rs[0]);
      if rs[0].tag == RELAY {
        assert Every(rs, RELAY)[0] == rs[0].value;
        assert Every(rs, RELAY)[1..] == Every(rs[1..], RELAY);
        if IsAscii(rs[0].value) {
          AsciiIsUtf8(rs[0].value);
        }
      } else {
        assert Every(rs, RELAY) == Every(rs[1..], RELAY);
      }
      if taken.Ok? {
        NaddrTakes(curve, taken.value, rs[1..]);
      }
    }
  }

  /** An `naddr` stream names the first identifier, author and kind, and every relay.
      Absence is an error; an empty identifier is not. */
  lemma NaddrExact(curve: Curve, rs: seq<Record>, a: Naddr)
    ensures NaddrFrom(curve, rs) == Ok(a) <==>
      && First(rs, SPECIAL) == Some(a.identifier) && ValidUtf8(a.identifier)
      && PubkeyOk(curve, First(rs, AUTHOR)) && a.pubkey == First(rs, AUTHOR).value
      && KindOk(First(rs, KIND)) && a.kind == FromBigEndian(First(rs, KIND).value)
      && a.relays == Every(rs, RELAY) && AllAscii(a.relays)
  {
    hide TakeAll, ValidUtf8, FromBigEndian, First, Every;
    NaddrTakes(curve, NOTHING, rs);
    assert [] + Every(rs, RELAY) == Every(rs, RELAY);
  }

  // --- decoding what was encoded ---------------------------------------------------------------------------

  lemma OneMore(r: Record, rest: seq<Record>, tag: u8)
    ensures Every([r] + rest, tag) == (if r.tag == tag then [r.value] else []) + Every(rest, tag)
    ensures First([r] + rest, tag) == if r.tag == tag then Some(r.value) else First(rest, tag)
  {
    assert ([r] + rest)[1..] == rest;
  }

  lemma {:induction false} RelaysRead(relays: seq<Bytes>, rest: seq<Record>, tag: u8)
    ensures Every(RelayRecords(relays) + rest, RELAY) == relays + Every(rest, RELAY)
    ensures tag != RELAY ==> First(RelayRecords(relays) + rest, tag) == First(rest, tag)
  {
    hide Every, First;
    var rs := RelayRecords(relays);
    if relays == [] {
      assert rs + rest == rest;
    } else {
      var others := RelayRecords(relays[1..]) + rest;
      RelaysRead(relays[1..], rest, tag);
      assert rs + rest == [rs[0]] + others;
      OneMore(rs[0], others, tag);
      OneMore(rs[0], others, RELAY);
      assert relays == [relays[0]] + relays[1..];
    }
  }

  predicate ShortEnough(relays: seq<Bytes>) {
    forall i :: 0 <= i < |relays| ==> |relays[i]| <= 255
  }

  /** An `nprofile` encodes exactly when every relay fits a length byte, and then
      decodes to itself exactly when the key is on the curve and the relays are ASCII.
      The encoder checks neither, so it writes strings its own decoder refuses. */
  lemma NprofileRoundTrip(curve: Curve, p: Nprofile)
    ensures var written := PushedAll([], NprofileRecords(p));
      && (written.Ok? <==> ShortEnough(p.relays))
      && (written.Ok? ==> (NprofileDecoded(curve, written.value) == Ok(p) <==> curve(p.pubkey) && AllAscii(p.relays)))
  {
    hide PushedAll, Parsed, TakeAll, Stream, NprofileFrom;
    var rs := NprofileRecords(p);
    PushedExact(rs);
    assert forall i :: 0 <= i < |p.relays| ==> rs[i + 1].value == p.relays[i];
    assert Expressible(rs) <==> ShortEnough(p.relays);
    if Expressible(rs) {
      StreamParses(rs);
      RelaysRead(p.relays, [], SPECIAL);
      assert rs[1..] == RelayRecords(p.relays) + [];
      assert p.relays + [] == p.relays;
      NprofileExact(curve, rs, p);
    }
  }

  /** The same for an `naddr`; the empty identifier round-trips. */
  lemma NaddrRoundTrip(curve: Curve, a: Naddr)
    requires ValidUtf8(a.identifier)
    ensures var written := PushedAll([], NaddrRecords(a));
      && (written.Ok? <==> ShortEnough(a.relays) && |a.identifier| <= 255)
      && (written.Ok? ==> (NaddrDecoded(curve, written.value) == Ok(a) <==> curve(a.pubkey) && AllAscii(a.relays)))
  {
    hide ValidUtf8, BigEndian, FromBigEndian, PushedAll, Parsed, TakeAll, Stream, NaddrFrom;
    var rs := NaddrRecords(a);
    var tail := [Record(AUTHOR, a.pubkey), Record(KIND, BigEndian(a.kind, 4))];
    PushedExact(rs);
    NaddrExpressible(a);
    if Expressible(rs) {
      StreamParses(rs);
      RelaysRead(a.relays, tail, AUTHOR);
      RelaysRead(a.relays, tail, KIND);
      assert rs[1..] == RelayRecords(a.relays) + tail;
      TailReads(a.pubkey, a.kind);
      NaddrExact(curve, rs, a);
      assert a.relays + [] == a.relays;
    }
  }

  lemma NaddrExpressible(a: Naddr)
    ensures Expressible(NaddrRecords(a)) <==> ShortEnough(a.relays) && |a.identifier| <= 255
  {
    hide BigEndian;
    var rs := NaddrRecords(a);
    assert rs[0].value == a.identifier;
    assert forall i :: 0 <= i < |a.relays| ==> rs[i + 1].value == a.relays[i];
  }

  lemma TailReads(pubkey: PublicKey, kind: u16)
    ensures var tail := [Record(AUTHOR, pubkey), Record(KIND, BigEndian(kind, 4))];
      && Every(tail, RELAY) == [] && First(tail, AUTHOR) == Some(pubkey)
      && First(tail, KIND) == Some(BigEndian(kind, 4))
      && FromBigEndian(BigEndian(kind, 4)) == kind
  {
    Pow256Values();
    BigEndianRoundTrip(kind, 4);
    var tail := [Record(AUTHOR, pubkey), Record(KIND, BigEndian(kind, 4))];
    assert tail[1..] == [Record(KIND, BigEndian(kind, 4))];
    assert tail[1..][1..] == [];
    assert Every(tail[1..], RELAY) == [];
    assert First(tail[1..], KIND) == Some(BigEndian(kind, 4));
  }

  // --- records that change nothing -----------------------------------------------------------------------------

  /** A record the decoder has no use for: a type it does not know, or one more of a
      singular field the stream has already given. */
  predicate Idle(before: seq<Record>, r: Record, singular: set<u8>) {
    r.tag != RELAY && (r.tag in singular ==> First(before, r.tag).Some?)
  }

  lemma {:induction false} TakenAfter(take: Take, f: Fields, a: seq<Record>, b: seq<Record>)
    ensures TakeAll(take, f, a + b) ==
      match TakeAll(take, f, a) case Err(e) => Err(e) case Ok(next) => TakeAll(take, next, b)
    decreases |a|
  {
    if a == [] {
      assert a + b == b;
    } else {
      assert (a + b)[1..] == a[1..] + b;
      if take(f, a[0]).Ok? {
        TakenAfter(take, take(f, a[0]).value, a[1..], b);
      }
    }
  }

  lemma IdleSkipped(take: Take, before: seq<Record>, r: Record, after: seq<Record>)
    requires TakeAll(take, NOTHING, before).Ok? ==>
      take(TakeAll(take, NOTHING, before).value, r) == Ok(TakeAll(take, NOTHING, before).value)
    ensures TakeAll(take, NOTHING, before + [r] + after) == TakeAll(take, NOTHING, before + after)
  {
    TakenAfter(take, NOTHING, before, after);
    TakenAfter(take, NOTHING, before, [r] + after);
    assert before + [r] + after == before + ([r] + after);
    assert ([r] + after)[1..] == after;
  }

  /** Inserting an idle record anywhere changes no outcome, errors included. */
  lemma NprofileIgnores(curve: Curve, before: seq<Record>, r: Record, after: seq<Record>)
    requires Idle(before, r, {SPECIAL})
    ensures NprofileFrom(curve, before + [r] + after) == NprofileFrom(curve, before + after)
  {
    NprofileTakes(curve, NOTHING, before);
    IdleSkipped(ForNprofile(curve), before, r, after);
  }

  lemma NaddrIgnores(curve: Curve, before: seq<Record>, r: Record, after: seq<Record>)
    requires Idle(before, r, {SPECIAL, AUTHOR, KIND})
    ensures NaddrFrom(curve, before + [r] + after) == NaddrFrom(curve, before + after)
  {
    NaddrTakes(curve, NOTHING, before);
    IdleSkipped(ForNaddr(curve), before, r, after);
  }
}
