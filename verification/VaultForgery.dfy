/** Why the leaf count is a condition of the tip's binding: two clean stores with one tip
    and different leaves. One is sealed over a memory and a quest. In the other the
    quest is gone, the digest of the node over both leaves stands where the memory's
    leaf stood, and the day's count, which no hash covers, says two. */
module VaultForgery {
  import opened Basics
  import opened Ordering
  import opened Hashing
  import opened Merkle
  import opened MerkleLaws
  import opened Calendar
  import opened Chain
  import opened Canonical
  import opened Leaves
  import opened Vault
  import opened VaultLaws
  import opened VaultRuns
  import opened VaultExact
  import opened VaultBinding

  // --- the day that was sealed ------------------------------------------------------------------------

  datatype Scene = Scene(m: Memory, q: Quest, date: Date, tz: TzName, start: i64, end: i64)

  /** One memory kept, one quest issued, one day sealed over both. */
  function Ops(s: Scene): seq<Op> {
    [StoreMemory(s.m), Issue(s.q), SealDay(s.date, s.tz, s.start, s.end, WithQuests, true)]
  }

  function MemoryDigest(h: HashFn, s: Scene): Digest { h(MemoryPreimage(s.m)) }

  function QuestDigest(h: HashFn, s: Scene): Digest { h(QuestPreimage(s.q)) }

  function MetaLeafDigest(h: HashFn, s: Scene): Digest { MetaDigest(h, 1, s.date, s.tz, 1) }

  function NodeDigest(h: HashFn, s: Scene): Digest { NodeHash(h, MemoryDigest(h, s), QuestDigest(h, s)) }

  /** The digests fall in the order memory, quest, meta, and the node below the meta leaf. */
  predicate InOrder(h: HashFn, s: Scene) {
    && MemoryDigest(h, s) < QuestDigest(h, s) < MetaLeafDigest(h, s) && NodeDigest(h, s) < MetaLeafDigest(h, s)
    && s.start <= Effective(s.m) < s.end
  }

  function DayRootDigest(h: HashFn, s: Scene): Digest { NodeHash(h, NodeDigest(h, s), MetaLeafDigest(h, s)) }

  function SealedDayRow(h: HashFn, genesis: Digest, s: Scene): Footage {
    var root := DayRootDigest(h, s);
    Footage(1, s.date, s.tz, root, genesis, h(LinkPreimage(genesis, root, 1, s.date, s.tz)), 3, WithQuests)
  }

  function SealedStore(h: HashFn, genesis: Digest, s: Scene): State {
    State([Live(s.m)], [QuestRow(s.q, Open, None, Some(1), None)], [SealedDayRow(h, genesis, s)],
          map[1 := [LeafRow(s.m.id, MemoryDigest(h, s))]], map[])
  }

  /** The same chain record, with the quest gone, its node in the memory's place and the
      count to match. */
  function ForgedStore(h: HashFn, genesis: Digest, s: Scene): State {
    SealedStore(h, genesis, s).(
      quests := [], leaves := map[1 := [LeafRow(s.m.id, NodeDigest(h, s))]],
      footage := [SealedDayRow(h, genesis, s).(leafCount := 2)])
  }

  lemma SmallRoots(h: HashFn, a: Digest, b: Digest, c: Digest)
    ensures RootOf(h, [a, b]) == NodeHash(h, a, b)
    ensures RootOf(h, [a, b, c]) == NodeHash(h, NodeHash(h, a, b), c)
  {
    hide NodeHash;
    assert [a, b][2..] == [] && [a, b, c][2..] == [c];
    assert NextLevel(h, []) == [] && NextLevel(h, [c]) == [c];
    assert NextLevel(h, [a, b]) == [NodeHash(h, a, b)];
    assert NextLevel(h, [a, b, c]) == [NodeHash(h, a, b), c];
    assert [NodeHash(h, a, b), c][2..] == [];
    assert NextLevel(h, [NodeHash(h, a, b), c]) == [NodeHash(h, NodeHash(h, a, b), c)];
    assert RootOf(h, [NodeHash(h, a, b), c]) == NodeHash(h, NodeHash(h, a, b), c);
  }

  lemma RootOfThree(h: HashFn, s: Scene)
    requires InOrder(h, s)
    ensures RootOfSet(h, [MetaLeafDigest(h, s), MemoryDigest(h, s), QuestDigest(h, s)]) == Ok(DayRootDigest(h, s))
  {
    hide MemoryDigest, QuestDigest, MetaLeafDigest, Sealed, RootOf;
    var m, q, t := MemoryDigest(h, s), QuestDigest(h, s), MetaLeafDigest(h, s);
    assert multiset([t, m, q]) == multiset([m, q, t]);
    SealsTo([t, m, q], [m, q, t]);
    SmallRoots(h, m, q, t);
  }

  lemma RootOfTwo(h: HashFn, s: Scene)
    requires InOrder(h, s)
    ensures RootOfSet(h, [MetaLeafDigest(h, s), NodeDigest(h, s)]) == Ok(DayRootDigest(h, s))
  {
    hide MemoryDigest, QuestDigest, MetaLeafDigest, Sealed, NodeDigest, RootOf;
    var n, t := NodeDigest(h, s), MetaLeafDigest(h, s);
    assert multiset([t, n]) == multiset([n, t]);
    SealsTo([t, n], [n, t]);
    SmallRoots(h, n, t, t);
  }

  /** One unanswered quest gives one leaf under its own stamp. */
  lemma OneQuest(h: HashFn, s: Scene, r: QuestRow, stamp: Option<nat>)
    requires r.quest == s.q && r.status == Open && r.committedSeq == stamp
    ensures QuestsStamped([r], stamp) == [r] && VerdictsStamped([r], stamp) == []
    ensures ActivityLeaves(h, [r], stamp) == Ok([QuestDigest(h, s)])
  {
    hide QuestPreimage;
    assert [r][1..] == [];
    assert QuestsStamped([], stamp) == [] && VerdictsStamped([], stamp) == [];
    assert [r] + [] == [r];
    assert QuestsStamped([r], stamp) == [r] && VerdictsStamped([r], stamp) == [];
    assert QuestLeaves(h, []) == [];
    assert QuestLeaves(h, [r]) == [QuestDigest(h, s)];
    assert VerdictLeaves(h, []) == Ok([]);
    assert [QuestDigest(h, s)] + [] == [QuestDigest(h, s)];
  }

  lemma SealedLeaves(h: HashFn, genesis: Digest, s: Scene)
    ensures Rederived(h, SealedStore(h, genesis, s), SealedDayRow(h, genesis, s))
         == Ok([MetaLeafDigest(h, s), MemoryDigest(h, s), QuestDigest(h, s)])
  {
    hide MemoryPreimage, QuestPreimage, MetaPreimage, NodeDigest;
    var v := SealedStore(h, genesis, s);
    OneQuest(h, s, v.quests[0], Some(1));
    assert v.quests == [v.quests[0]];
    assert LeafDigests(LeavesOf(v, 1)) == [MemoryDigest(h, s)];
    assert [MetaLeafDigest(h, s)] + [MemoryDigest(h, s)] + [QuestDigest(h, s)] ==
        [MetaLeafDigest(h, s), MemoryDigest(h, s), QuestDigest(h, s)];
  }

  lemma NothingAtAll(h: HashFn, seqNo: nat)
    ensures ActivityLeaves(h, [], Some(seqNo)) == Ok([])
  {
    var none: seq<Digest> := [];
    assert none + none == none;
    assert QuestLeaves(h, []) == none && VerdictLeaves(h, []) == Ok(none);
  }

  lemma ForgedLeaves(h: HashFn, genesis: Digest, s: Scene)
    ensures Rederived(h, ForgedStore(h, genesis, s), ForgedStore(h, genesis, s).footage[0])
         == Ok([MetaLeafDigest(h, s), NodeDigest(h, s)])
  {
    hide MemoryPreimage, QuestPreimage, MetaPreimage, NodeDigest;
    var w := ForgedStore(h, genesis, s);
    assert LeafDigests(LeavesOf(w, 1)) == [NodeDigest(h, s)];
    assert [MetaLeafDigest(h, s)] + [NodeDigest(h, s)] == [MetaLeafDigest(h, s), NodeDigest(h, s)];
    NothingAtAll(h, 1);
    assert [MetaLeafDigest(h, s), NodeDigest(h, s)] + [] == [MetaLeafDigest(h, s), NodeDigest(h, s)];
  }

  /** A store of one such day that re-derives to a list with that root and count. */
  lemma OneDayClean(h: HashFn, genesis: Digest, v: State, f: Footage, ds: seq<Digest>)
    requires v.footage == [f] && v.anchors == map[] && f.seqNo == 1
    requires f.prevLink == genesis && f.link == h(LinkPreimage(genesis, f.root, 1, f.date, f.tz))
    requires Rederived(h, v, f) == Ok(ds) && f.leafCount == |ds| < 10 && RootOfSet(h, ds) == Ok(f.root)
    ensures Verified(h, genesis, Sealer, v) == Ok(CleanReport(1))
  {
    hide Rederived, RootOfSet, LinkPreimage;
    assert CheckDay(h, v, Sealer, f) == Ok(Good);
    assert Records(v.footage) == [RecordOf(f)];
    assert [RecordOf(f)][1..] == [];
    assert VerdictFrom(h, f.link, 2, []) == Ok(());
    assert VerdictFrom(h, genesis, 1, [RecordOf(f)]) == Ok(());
    assert v.footage[1..] == [];
    assert CheckDays(h, v, Sealer, [], CleanReport(1)) == Ok(CleanReport(1));
  }

  /** Both stores are clean, end in one link, and differ: the second has no quest. */
  lemma ForgedStoreIsClean(h: HashFn, genesis: Digest, s: Scene)
    requires InOrder(h, s)
    ensures var v, w := SealedStore(h, genesis, s), ForgedStore(h, genesis, s);
      && Verified(h, genesis, Sealer, v) == Ok(CleanReport(1)) && Verified(h, genesis, Sealer, w) == Ok(CleanReport(1))
      && TipLink(genesis, v.footage) == TipLink(genesis, w.footage) && Records(v.footage) == Records(w.footage)
      && QuestsStamped(v.quests, Some(1)) != [] && w.quests == []
      && !SameDayLeaves(h, v, w, 0)
  {
    hide Rederived, RootOfSet, LinkPreimage, MemoryDigest, QuestDigest, MetaLeafDigest, NodeDigest, DayRootDigest,
         Verified;
    var v, w := SealedStore(h, genesis, s), ForgedStore(h, genesis, s);
    RootOfThree(h, s);
    RootOfTwo(h, s);
    SealedLeaves(h, genesis, s);
    ForgedLeaves(h, genesis, s);
    OneDayClean(h, genesis, v, v.footage[0], [MetaLeafDigest(h, s), MemoryDigest(h, s), QuestDigest(h, s)]);
    OneDayClean(h, genesis, w, w.footage[0], [MetaLeafDigest(h, s), NodeDigest(h, s)]);
    if SameDayLeaves(h, v, w, 0) {
      EqualBagsSameLength([MetaLeafDigest(h, s), MemoryDigest(h, s), QuestDigest(h, s)],
          [MetaLeafDigest(h, s), NodeDigest(h, s)]);
    }
  }

  /** The root check's other failing input: over this store it says the roots are fine,
      and the store does not hold what was sealed. */
  lemma ForgedStorePassesRoots(h: HashFn, genesis: Digest, s: Scene)
    requires InOrder(h, s)
    ensures var w := ForgedStore(h, genesis, s);
      var sealed := [[MetaLeafDigest(h, s), MemoryDigest(h, s), QuestDigest(h, s)]];
      && SealedOver(h, w.footage[0], sealed[0]) && Derivable(h, w)
      && RootsOk(h, genesis, w) && !AllAsSealed(h, w, sealed)
  {
    hide Rederived, RootOfSet, LinkPreimage, MemoryDigest, QuestDigest, MetaLeafDigest, NodeDigest, DayRootDigest,
         Verified;
    RootOfThree(h, s);
    ForgedLeaves(h, genesis, s);
    ForgedStoreIsClean(h, genesis, s);
    if AllAsSealed(h, ForgedStore(h, genesis, s), [[MetaLeafDigest(h, s), MemoryDigest(h, s), QuestDigest(h, s)]]) {
      assert SameAsSealed(h, ForgedStore(h, genesis, s), ForgedStore(h, genesis, s).footage[0],
                          [MetaLeafDigest(h, s), MemoryDigest(h, s), QuestDigest(h, s)]);
      EqualBagsSameLength([MetaLeafDigest(h, s), NodeDigest(h, s)],
          [MetaLeafDigest(h, s), MemoryDigest(h, s), QuestDigest(h, s)]);
    }
  }

  // --- the sealed store is what a device seals ---------------------------------------------------------

  lemma SealedStoreIsReached(h: HashFn, genesis: Digest, s: Scene)
    requires InOrder(h, s)
    ensures Run(h, genesis, FRESH, Ops(s)) == SealedStore(h, genesis, s)
  {
    hide Seal, MemoryDigest, QuestDigest, MetaLeafDigest, NodeDigest, DayRootDigest;
    var ops := Ops(s);
    var one := State([Live(s.m)], [], [], map[], map[]);
    var two := one.(quests := [QuestRow(s.q, Open, None, None, None)]);
    assert Apply(h, genesis, FRESH, ops[0]) == one;
    assert Apply(h, genesis, one, ops[1]) == two;
    SealOfScene(h, genesis, s);
    assert Apply(h, genesis, two, ops[2]) == SealedStore(h, genesis, s);
    assert ops[1..] == [ops[1], ops[2]] && ops[1..][1..] == [ops[2]] && [ops[2]][1..] == [];
    assert Run(h, genesis, two, [ops[2]]) == SealedStore(h, genesis, s);
    assert Run(h, genesis, one, ops[1..]) == SealedStore(h, genesis, s);
  }

  /** The store when the day is about to be sealed. */
  function OpenStore(s: Scene): State {
    State([Live(s.m)], [QuestRow(s.q, Open, None, None, None)], [], map[], map[])
  }

  lemma BuildOfScene(h: HashFn, s: Scene)
    requires InOrder(h, s)
    ensures BuildRoot(h, OpenStore(s), [s.m], WithQuests, 1, s.date, s.tz)
         == Ok(SealedRoot(DayRootDigest(h, s), [LeafRow(s.m.id, MemoryDigest(h, s))], 3))
  {
    hide MemoryPreimage, QuestPreimage, MetaPreimage, RootOfSet, NodeDigest, DayRootDigest;
    var rows := OpenStore(s).quests;
    OneQuest(h, s, rows[0], None);
    assert rows == [rows[0]];
    assert MemoryLeaves(h, [s.m]) == [LeafRow(s.m.id, MemoryDigest(h, s))];
    assert LeafDigests(MemoryLeaves(h, [s.m])) == [MemoryDigest(h, s)];
    assert [MetaLeafDigest(h, s)] + [MemoryDigest(h, s)] + [QuestDigest(h, s)] ==
        [MetaLeafDigest(h, s), MemoryDigest(h, s), QuestDigest(h, s)];
    RootOfThree(h, s);
  }

  lemma SealOfScene(h: HashFn, genesis: Digest, s: Scene)
    requires InOrder(h, s)
    ensures Seal(h, genesis, Sealer, OpenStore(s), s.date, s.tz, s.start, s.end, WithQuests, true) ==
        Ok(SealedStore(h, genesis, s))
  {
    hide LinkPreimage, BuildRoot, DayRootDigest, MemoryDigest, VerdictsStamped, QuestsStamped, MarkCommitted, InOrder;
    var v := OpenStore(s);
    assert Window(v.memories, s.start, s.end) == [s.m] by {
      InTheWindow(h, s);
    }
    BuildOfScene(h, s);
    OneQuest(h, s, v.quests[0], None);
    assert v.quests == [v.quests[0]];
    StampOfScene(s);
    assert [] + [SealedDayRow(h, genesis, s)] == [SealedDayRow(h, genesis, s)];
  }

  lemma InTheWindow(h: HashFn, s: Scene)
    requires InOrder(h, s)
    ensures Window([Live(s.m)], s.start, s.end) == [s.m]
  {
    assert Window([], s.start, s.end) == [];
    assert [Live(s.m)][1..] == [];
    assert [s.m] + [] == [s.m];
  }

  lemma StampOfScene(s: Scene)
    ensures MarkCommitted(OpenStore(s).quests, 1, Ids(OpenStore(s).quests), Ids([])) ==
        [QuestRow(s.q, Open, None, Some(1), None)]
  {
    assert s.q.issued.id == Ids(OpenStore(s).quests)[0];
  }

  // --- a hash for which all this happens, without a collision -----------------------------------------------

  function Toy(p: Preimage): Digest {
    match p.tag
    case MemoryLeaf => 1
    case QuestLeaf => 2
    case Node => if p == NodePreimage(1, 2) then 3 else 5
    case MetaLeaf => 4
    case _ => 6
  }

  /** Everything sealing, verifying and forging the day hash. */
  function SceneHashes(genesis: Digest, s: Scene): set<Preimage> {
    {MemoryPreimage(s.m), QuestPreimage(s.q), MetaPreimage(1, s.date, s.tz, 1), NodePreimage(1, 2), NodePreimage(3, 4),
     LinkPreimage(genesis, 5, 1, s.date, s.tz)}
  }

  lemma ToyValues(genesis: Digest, s: Scene)
    ensures Toy(MemoryPreimage(s.m)) == 1 && Toy(QuestPreimage(s.q)) == 2 && Toy(MetaPreimage(1, s.date, s.tz, 1)) == 4
    ensures Toy(LinkPreimage(genesis, 5, 1, s.date, s.tz)) == 6
  {
    hide ToCanonicalCbor, MetaMessage, NodePreimage;
  }

  lemma ToyNodes()
    ensures Toy(NodePreimage(1, 2)) == 3 && Toy(NodePreimage(3, 4)) == 5
  {
    if NodePreimage(3, 4) == NodePreimage(1, 2) {
      NodePreimageInjective(3, 4, 1, 2);
    }
  }

  /** For every memory, quest and date there is a hash under which the forged store is
      clean and nothing hashed collides: no assumption on the hash rules it out. */
  lemma ForgeryNeedsNoCollision(genesis: Digest, s: Scene)
    requires s.start <= Effective(s.m) < s.end
    ensures InOrder(Toy, s) && Injective(Toy, SceneHashes(genesis, s))
  {
    hide MemoryPreimage, QuestPreimage, MetaPreimage, LinkPreimage, NodePreimage, Toy, Effective;
    ToyValues(genesis, s);
    ToyNodes();
    assert Saturate32(1) == 1;
  }
}
