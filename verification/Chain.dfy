/** The commitment chain: leaves, links and the verifier that names the first break. */
module Chain {
  import opened Basics
  import opened Hashing
  import opened Calendar

  // --- preimages ----------------------------------------------------------------------

  type Salt = b: Bytes | |b| == 32 witness seq(32, i => 0)

  /** A salted leaf: the salt is the first 32 bytes of the message. */
  function LeafPreimage(tag: Tag, salt: Salt, canonical: Bytes): Preimage {
    Preimage(tag, salt + canonical)
  }

  function ZeroSalt(): Salt { seq(32, i => 0) }

  function MetaMessage(seqNo: u64, date: Day, tz: TzName, memoryCount: u32): Bytes {
    BigEndian(seqNo, 8) + Render(date) + tz + BigEndian(memoryCount, 4)
  }

  function MetaPreimage(seqNo: u64, date: Day, tz: TzName, memoryCount: u32): Preimage {
    LeafPreimage(MetaLeaf, ZeroSalt(), MetaMessage(seqNo, date, tz, memoryCount))
  }

  function LinkPreimage(prev: Digest, root: Digest, seqNo: u64, date: Day, tz: TzName): Preimage {
    Preimage(Tag.Link, Raw(prev) + Raw(root) + BigEndian(seqNo, 8) + Render(date) + tz)
  }

  /** `i64::to_be_bytes`: two's complement. */
  function SignedBigEndian8(n: i64): Bytes {
    BigEndian(if n < 0 then n + 0x1_0000_0000_0000_0000 else n, 8)
  }

  function GenesisPreimage(identity: Salt, millis: i64, chainId: Uuid): Preimage {
    Preimage(Tag.Genesis, identity + SignedBigEndian8(millis) + BigEndian(chainId, 16))
  }

  lemma SeqNoInjective(m: u64, n: u64)
    requires BigEndian(m, 8) == BigEndian(n, 8)
    ensures m == n
  {
    Pow256Values();
    BigEndianInjective(m, n, 8);
  }

  lemma LeafPreimageInjective(t: Tag, s: Salt, c: Bytes, t': Tag, s': Salt, c': Bytes)
    requires LeafPreimage(t, s, c) == LeafPreimage(t', s', c')
    ensures t == t' && s == s' && c == c'
  {
    var a: Bytes, b: Bytes := s, s';
    ConcatSplit(a, c, b, c');
  }

  /** A link's preimage parses back into the five fields it was built from. The
      design calls the fields fixed-width; the date and the zone are not, and the
      concatenation is still unambiguous, in every year. */
  lemma LinkPreimageInjective(p: Digest, r: Digest, n: u64, d: Day, z: TzName,
                              p': Digest, r': Digest, n': u64, d': Day, z': TzName)
    requires LinkPreimage(p, r, n, d, z) == LinkPreimage(p', r', n', d', z')
    ensures p == p' && r == r' && n == n' && d == d' && z == z'
  {
    var a, b, a', b' := Raw(p), Raw(r), Raw(p'), Raw(r');
    var s: Bytes, s': Bytes := BigEndian(n, 8), BigEndian(n', 8);
    var t: Bytes, t': Bytes := Render(d) + z, Render(d') + z';
    LinkMessageGrouped(a, b, n, d, z);
    LinkMessageGrouped(a', b', n', d', z');
    ConcatSplit(a, b + (s + t), a', b' + (s' + t'));
    ConcatSplit(b, s + t, b', s' + t');
    ConcatSplit(s, t, s', t');
    RawInjective(p, p');
    RawInjective(r, r');
    SeqNoInjective(n, n');
    DateZoneInjective(d, z, d', z');
  }

  lemma LinkMessageGrouped(p: Bytes, r: Bytes, n: u64, d: Day, z: TzName)
    ensures p + r + BigEndian(n, 8) + Render(d) + z == p + (r + (BigEndian(n, 8) + (Render(d) + z)))
  {
  }

  lemma MetaMessageGrouped(n: u64, d: Day, z: TzName, c: u32)
    ensures MetaMessage(n, d, z, c) == BigEndian(n, 8) + ((Render(d) + z) + BigEndian(c, 4))
  {
  }

  lemma MetaPreimageInjective(n: u64, d: Day, z: TzName, c: u32, n': u64, d': Day, z': TzName, c': u32)
    requires MetaPreimage(n, d, z, c) == MetaPreimage(n', d', z', c')
    ensures n == n' && d == d' && z == z' && c == c'
  {
    LeafPreimageInjective(MetaLeaf, ZeroSalt(), MetaMessage(n, d, z, c), MetaLeaf, ZeroSalt(),
        MetaMessage(n', d', z', c'));
    var s, s' := BigEndian(n, 8), BigEndian(n', 8);
    var t: Bytes, t': Bytes := Render(d) + z, Render(d') + z';
    var k, k' := BigEndian(c, 4), BigEndian(c', 4);
    MetaMessageGrouped(n, d, z, c);
    MetaMessageGrouped(n', d', z', c');
    ConcatSplit(s, t + k, s', t' + k');
    assert |t| == |t + k| - 4 && |t'| == |t' + k'| - 4;
    ConcatSplit(t, k, t', k');
    SeqNoInjective(n, n');
    DateZoneInjective(d, z, d', z');
    Pow256Values();
    BigEndianInjective(c, c', 4);
  }

  /** The genesis link binds identity, creation instant and chain id. */
  lemma GenesisPreimageInjective(i: Salt, m: i64, c: Uuid, i': Salt, m': i64, c': Uuid)
    requires GenesisPreimage(i, m, c) == GenesisPreimage(i', m', c')
    ensures i == i' && m == m' && c == c'
  {
    var a: Bytes, a': Bytes := i, i';
    var s, s' := SignedBigEndian8(m), SignedBigEndian8(m');
    var k, k' := BigEndian(c, 16), BigEndian(c', 16);
    assert GenesisPreimage(i, m, c).msg == a + (s + k);
    assert GenesisPreimage(i', m', c').msg == a' + (s' + k');
    ConcatSplit(a, s + k, a', s' + k');
    ConcatSplit(s, k, s', k');
    Pow256Values();
    BigEndianInjective(c, c', 16);
    BigEndianInjective(if m < 0 then m + 0x1_0000_0000_0000_0000 else m,
                       if m' < 0 then m' + 0x1_0000_0000_0000_0000 else m', 8);
  }

  // --- records and their verifier --------------------------------------------------------

  datatype ChainRecord = ChainRecord(seqNo: u64, date: Day, tz: TzName, root: Digest, prevLink: Digest, link: Digest)

  datatype ChainError = ChainGap(previous: nat, next: nat) | ChainBroken(seqNo: nat)

  function RecordPreimage(r: ChainRecord): Preimage {
    LinkPreimage(r.prevLink, r.root, r.seqNo, r.date, r.tz)
  }

  function LinkOf(h: HashFn, r: ChainRecord): Digest {
    h(RecordPreimage(r))
  }

  /** What the verifier says of a run that should continue from `prev` at `expected`. */
  function VerdictFrom(h: HashFn, prev: Digest, expected: nat, records: seq<ChainRecord>): Result<(), ChainError>
    requires expected >= 1
    decreases |records|
  {
    if records == [] then Ok(())
    else
      var r := records[0];
      if r.seqNo != expected then Err(ChainGap(expected - 1, r.seqNo))
      else if r.prevLink != prev then Err(ChainBroken(r.seqNo))
      else if LinkOf(h, r) != r.link then Err(ChainBroken(r.seqNo))
      else VerdictFrom(h, r.link, expected + 1, records[1..])
  }

  method VerifyRun(h: HashFn, genesis: Digest, records: seq<ChainRecord>) returns (r: Result<(), ChainError>)
    ensures r == VerdictFrom(h, genesis, 1, records)
  {
    var expectedPrev := genesis;
    var expectedSeq: nat := 1;
    for i := 0 to |records|
      invariant expectedSeq == i + 1
      invariant VerdictFrom(h, genesis, 1, records) == VerdictFrom(h, expectedPrev, expectedSeq, records[i..])
    {
      var record := records[i];
      if record.seqNo != expectedSeq {
        return Err(ChainGap(if expectedSeq >= 1 then expectedSeq - 1 else 0, record.seqNo));
      }
      if record.prevLink != expectedPrev {
        return Err(ChainBroken(record.seqNo));
      }
      if LinkOf(h, record) != record.link {
        return Err(ChainBroken(record.seqNo));
      }
      assert records[i..][1..] == records[i + 1..];
      expectedPrev := record.link;
      expectedSeq := expectedSeq + 1;
    }
    return Ok(());
  }

  /** Position `i` is in order: numbered, parented and linked as the chain demands. */
  predicate Follows(h: HashFn, genesis: Digest, records: seq<ChainRecord>, i: nat)
    requires i < |records|
  {
    && records[i].seqNo == i + 1
    && records[i].prevLink == (if i == 0 then genesis else records[i - 1].link)
    && records[i].link == LinkOf(h, records[i])
  }

  predicate Intact(h: HashFn, genesis: Digest, records: seq<ChainRecord>) {
    forall i :: 0 <= i < |records| ==> Follows(h, genesis, records, i)
  }

  /** The error describes the failure at position `k`. */
  predicate Describes(e: ChainError, records: seq<ChainRecord>, k: nat)
    requires k < |records|
  {
    match e
    case ChainGap(previous, next) => previous == k && next == records[k].seqNo && records[k].seqNo != k + 1
    case ChainBroken(seqNo) => seqNo == records[k].seqNo == k + 1
  }

  lemma PrefixGrows(h: HashFn, genesis: Digest, records: seq<ChainRecord>, i: nat)
    requires i < |records| && Intact(h, genesis, records[..i]) && Follows(h, genesis, records, i)
    ensures Intact(h, genesis, records[..i + 1])
  {
    var prefix := records[..i + 1];
    forall k | 0 <= k < |prefix|
      ensures Follows(h, genesis, prefix, k)
    {
      if k < i {
        assert Follows(h, genesis, records[..i], k);
      }
    }
  }

  lemma {:induction false} VerdictLocates(h: HashFn, genesis: Digest, records: seq<ChainRecord>, i: nat)
    requires i <= |records| && Intact(h, genesis, records[..i])
    ensures
      var v := VerdictFrom(h, if i == 0 then genesis else records[i - 1].link, i + 1, records[i..]);
      match v
      case Ok(_) => Intact(h, genesis, records)
      case Err(e) => exists k :: i <= k < |records| && Intact(h, genesis, records[..k])
                                 && !Follows(h, genesis, records, k) && Describes(e, records, k)
    decreases |records| - i
  {
    hide LinkPreimage;
    if i == |records| {
      assert records[..i] == records;
    } else {
      assert records[i..][0] == records[i] && records[i..][1..] == records[i + 1..];
      if Follows(h, genesis, records, i) {
        PrefixGrows(h, genesis, records, i);
        VerdictLocates(h, genesis, records, i + 1);
      } else {
        var e := VerdictFrom(h, if i == 0 then genesis else records[i - 1].link, i + 1, records[i..]).error;
        assert Describes(e, records, i);
      }
    }
  }

  /** `verify_run` is exact, and it names the first failure: it succeeds on intact
      runs only and on all of them; otherwise everything before the reported record is
      intact, a gap carries the length of that prefix and the offending number, and a
      broken link is reported only where the number was right. */
  lemma VerdictExact(h: HashFn, genesis: Digest, records: seq<ChainRecord>)
    ensures VerdictFrom(h, genesis, 1, records).Ok? <==> Intact(h, genesis, records)
    ensures VerdictFrom(h, genesis, 1, records).Err? ==>
      exists k :: 0 <= k < |records| && Intact(h, genesis, records[..k])
                  && !Follows(h, genesis, records, k)
                  && Describes(VerdictFrom(h, genesis, 1, records).error, records, k)
  {
    VerdictLocates(h, genesis, records, 0);
    assert records[0..] == records;
  }

  /** Sealing one more day on an intact chain. */
  lemma IntactExtends(h: HashFn, genesis: Digest, records: seq<ChainRecord>, r: ChainRecord)
    requires Intact(h, genesis, records)
    requires r.seqNo == |records| + 1 && r.link == LinkOf(h, r)
    requires r.prevLink == (if records == [] then genesis else records[|records| - 1].link)
    ensures Intact(h, genesis, records + [r])
  {
    hide LinkOf, LinkPreimage;
    var rs := records + [r];
    forall i | 0 <= i < |rs|
      ensures Follows(h, genesis, rs, i)
    {
      if i < |records| {
        assert Follows(h, genesis, records, i);
      }
    }
  }

  function RecordPreimages(records: seq<ChainRecord>): set<Preimage> {
    set r | r in records :: RecordPreimage(r)
  }

  ghost predicate RecordsWithin(records: seq<ChainRecord>, all: set<Preimage>) {
    forall i :: 0 <= i < |records| ==> RecordPreimage(records[i]) in all
  }

  /** Two records with one link are one record. */
  lemma LinkBindsRecord(h: HashFn, a: ChainRecord, b: ChainRecord, all: set<Preimage>)
    requires a.link == LinkOf(h, a) && b.link == LinkOf(h, b) && a.link == b.link
    requires RecordPreimage(a) in all && RecordPreimage(b) in all && Injective(h, all)
    ensures a == b
  {
    LinkPreimageInjective(a.prevLink, a.root, a.seqNo, a.date, a.tz, b.prevLink, b.root, b.seqNo, b.date, b.tz);
  }

  /** Two runs whose `n`-th links agree agree on everything before. */
  lemma {:induction false} SameLinkSamePast(h: HashFn, g: Digest, rs: seq<ChainRecord>, g': Digest,
                                            rs': seq<ChainRecord>, all: set<Preimage>, n: nat)
    requires Intact(h, g, rs) && Intact(h, g', rs') && n < |rs| == |rs'|
    requires rs[n].link == rs'[n].link
    requires RecordsWithin(rs, all) && RecordsWithin(rs', all) && Injective(h, all)
    ensures g == g' && forall i :: 0 <= i <= n ==> rs[i] == rs'[i]
  {
    hide LinkPreimage;
    assert Follows(h, g, rs, n) && Follows(h, g', rs', n);
    LinkBindsRecord(h, rs[n], rs'[n], all);
    if n > 0 {
      SameLinkSamePast(h, g, rs, g', rs', all, n - 1);
    }
  }

  /** The tip freezes the past: two non-empty runs the verifier accepts, from any two
      genesis links, whose last links agree have one genesis, one length and the same
      records throughout, or two of their link preimages collide. */
  lemma TipFreezesThePast(h: HashFn, g: Digest, rs: seq<ChainRecord>, g': Digest, rs': seq<ChainRecord>)
    requires rs != [] && rs' != []
    requires VerdictFrom(h, g, 1, rs).Ok? && VerdictFrom(h, g', 1, rs').Ok?
    requires rs[|rs| - 1].link == rs'[|rs'| - 1].link
    ensures (g == g' && rs == rs') || Collides(h, RecordPreimages(rs) + RecordPreimages(rs'))
  {
    var all := RecordPreimages(rs) + RecordPreimages(rs');
    hide LinkPreimage;
    InjectiveUnlessCollides(h, all);
    if Injective(h, all) {
      VerdictExact(h, g, rs);
      VerdictExact(h, g', rs');
      assert RecordsWithin(rs, all) && RecordsWithin(rs', all);
      assert Follows(h, g, rs, |rs| - 1) && Follows(h, g', rs', |rs'| - 1);
      LinkBindsRecord(h, rs[|rs| - 1], rs'[|rs'| - 1], all);
      SameLinkSamePast(h, g, rs, g', rs', all, |rs| - 1);
    }
  }
}
