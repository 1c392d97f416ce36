/** The hashed messages byte by byte: what stands at which offset, read back as numbers.
    Injectivity holds of any arrangement of the fields; this is the arrangement every
    sealed chain was hashed over. */
module WireBytes {
  import opened Basics
  import opened Hashing
  import opened Merkle
  import opened Calendar
  import opened Chain

  /** The number the bytes from `from` to `to` spell, most significant first. */
  function NumberAt(b: Bytes, from: nat, to: nat): nat
    requires from <= to <= |b|
  {
    FromBigEndian(b[from..to])
  }

  lemma RawReads(d: Digest)
    ensures |Raw(d)| == 32 && FromBigEndian(Raw(d)) == d
  {
    Pow256Values();
    BigEndianRoundTrip(d, 32);
  }

  lemma ShortReads(n: nat, width: nat)
    requires width in {4, 8, 16} && n < Pow256(width)
    ensures FromBigEndian(BigEndian(n, width)) == n
  {
    BigEndianRoundTrip(n, width);
  }

  /** An inner node: 64 bytes, the left child and then the right. */
  lemma NodeBytes(left: Digest, right: Digest)
    ensures var p := NodePreimage(left, right);
      && p.tag == Tag.Node && |p.msg| == 64
      && NumberAt(p.msg, 0, 32) == left && NumberAt(p.msg, 32, 64) == right
  {
    hide Raw;
    RawReads(left);
    RawReads(right);
    var m := NodePreimage(left, right).msg;
    assert m[0..32] == Raw(left) && m[32..64] == Raw(right);
  }

  /** A link: the digest it hangs from, the day's root, the number in eight bytes, the date
      as written, the zone's name. */
  lemma LinkBytes(prev: Digest, root: Digest, seqNo: u64, date: Day, tz: TzName)
    ensures var p := LinkPreimage(prev, root, seqNo, date, tz);
      && p.tag == Tag.Link && |p.msg| >= 72
      && NumberAt(p.msg, 0, 32) == prev && NumberAt(p.msg, 32, 64) == root && NumberAt(p.msg, 64, 72) == seqNo
      && p.msg[72..] == Render(date) + tz
  {
    hide Raw, Render, BigEndian;
    RawReads(prev);
    RawReads(root);
    Pow256Values();
    ShortReads(seqNo, 8);
    var m := LinkPreimage(prev, root, seqNo, date, tz).msg;
    LinkMessageGrouped(Raw(prev), Raw(root), seqNo, date, tz);
    LinkSlices(Raw(prev), Raw(root), BigEndian(seqNo, 8), Render(date) + tz);
  }

  lemma LinkSlices(a: Bytes, b: Bytes, c: Bytes, d: Bytes)
    requires |a| == |b| == 32 && |c| == 8
    ensures var m := a + (b + (c + d));
      |m| >= 72 && m[0..32] == a && m[32..64] == b && m[64..72] == c && m[72..] == d
  {
  }

  /** The metadata leaf: a salt of 32 zeros, the number in eight bytes, the date as written,
      the zone's name, and the count of memories in the last four. */
  lemma MetaBytes(seqNo: u64, date: Day, tz: TzName, memoryCount: u32)
    ensures var p := MetaPreimage(seqNo, date, tz, memoryCount);
      && p.tag == MetaLeaf && |p.msg| >= 44
      && (forall i :: 0 <= i < 32 ==> p.msg[i] == 0)
      && NumberAt(p.msg, 32, 40) == seqNo && NumberAt(p.msg, |p.msg| - 4, |p.msg|) == memoryCount
      && p.msg[40..|p.msg| - 4] == Render(date) + tz
  {
    hide Render, BigEndian;
    Pow256Values();
    ShortReads(seqNo, 8);
    ShortReads(memoryCount, 4);
    var m := MetaPreimage(seqNo, date, tz, memoryCount).msg;
    MetaMessageGrouped(seqNo, date, tz, memoryCount);
    assert m[32..40] == BigEndian(seqNo, 8) && m[|m| - 4..|m|] == BigEndian(memoryCount, 4);
    assert m[40..|m| - 4] == Render(date) + tz;
  }

  /** The genesis link: the identity's 32 bytes, the creation instant in eight bytes of two's
      complement, the chain id in sixteen. */
  lemma GenesisBytes(identity: Salt, millis: i64, chainId: Uuid)
    ensures var p := GenesisPreimage(identity, millis, chainId);
      && p.tag == Tag.Genesis && |p.msg| == 56 && p.msg[..32] == identity
      && NumberAt(p.msg, 32, 40) == (if millis >= 0 then millis else 18446744073709551616 + millis)
      && NumberAt(p.msg, 40, 56) == chainId
  {
    hide BigEndian;
    Pow256Values();
    ShortReads(if millis < 0 then millis + 0x1_0000_0000_0000_0000 else millis, 8);
    ShortReads(chainId, 16);
    var m := GenesisPreimage(identity, millis, chainId).msg;
    assert m[..32] == identity && m[32..40] == SignedBigEndian8(millis) && m[40..56] == BigEndian(chainId, 16);
  }

  /** Every wire string begins with this project's name and its first version. */
  lemma TagsAreVersioned(t: Tag)
    ensures |t.AsStr()| > 10
    ensures t.AsStr()[..10] == [0x67, 0x68, 0x6F, 0x73, 0x74, 0x72, 0x2F, 0x76, 0x31, 0x2F]
  {
    var prefix := "ghostr/v1/";
    assert forall i :: 0 <= i < 10 ==> t.AsStr()[i] == prefix[i] as int;
  }
}
