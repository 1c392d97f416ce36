/** The memories behind the leaves. `verify` reads the leaf rows a seal stored and never
    the memory table, so a memory altered after sealing passes it; what catches the
    alteration is hashing the memory again and looking for its leaf among the rows. */
module VaultMemories {
  import opened Basics
  import opened Hashing
  import opened Merkle
  import opened MerkleLaws
  import opened MerkleFrontier
  import opened Calendar
  import opened Chain
  import opened Leaves
  import opened Vault
  import opened VaultLaws
  import opened VaultRuns
  import opened VaultExact
  import opened VaultBinding
  import opened VaultContent
  import opened VaultForgery

  // --- what the verifier does not read ---------------------------------------------------------------

  lemma {:induction false} DaysIgnoreMemories(h: HashFn, role: Role, v: State, memories: seq<MemoryRow>,
                                              days: seq<Footage>, report: VerifyReport)
    ensures CheckDays(h, v.(memories := memories), role, days, report) == CheckDays(h, v, role, days, report)
    decreases |days|
  {
    hide ActivityLeaves, RootOfSet, MetaDigest;
    if days != [] {
      var w := v.(memories := memories);
      assert Rederived(h, w, days[0]) == Rederived(h, v, days[0]);
      assert CheckDay(h, w, role, days[0]) == CheckDay(h, v, role, days[0]);
      DaysIgnoreMemories(h, role, v, memories, days[1..], Tally(report, AnchorOf(v, days[0].seqNo)));
      DaysIgnoreMemories(h, role, v, memories, days[1..], report.(rootsUnchecked := report.rootsUnchecked + 1));
    }
  }

  /** The whole memory table may be replaced without `verify` noticing. */
  lemma VerifyIgnoresMemories(h: HashFn, genesis: Digest, role: Role, v: State, memories: seq<MemoryRow>)
    ensures Verified(h, genesis, role, v.(memories := memories)) == Verified(h, genesis, role, v)
  {
    hide CheckDays, VerdictFrom;
    DaysIgnoreMemories(h, role, v, memories, v.footage, CleanReport(|v.footage|));
  }

  /** The failing input. One memory is stored and sealed, and its text is then rewritten:
      the report is clean, the tip is the same, and the leaf the memory has now is
      another. */
  lemma AlteredMemoryPasses(h: HashFn, genesis: Digest, s: Scene, text: Utf8)
    requires InOrder(h, s)
    ensures var v := Run(h, genesis, FRESH, Ops(s));
      var altered := s.m.(text := text);
      var w := v.(memories := [Live(altered)]);
      && v.memories == [Live(s.m)] && SealedMemories(h, genesis, Ops(s), 1) == [s.m]
      && Verified(h, genesis, Sealer, w) == Ok(CleanReport(1))
      && TipLink(genesis, w.footage) == TipLink(genesis, v.footage)
      && (text != s.m.text ==> MemoryPreimage(altered) != MemoryPreimage(s.m))
  {
    hide Verified, TipLink, MemoryPreimage, InOrder, SealedDayRow, MemoryDigest, Run, SealedMemories;
    SealedStoreIsReached(h, genesis, s);
    SceneIsLogged(h, genesis, s);
    ForgedStoreIsClean(h, genesis, s);
    VerifyIgnoresMemories(h, genesis, Sealer, SealedStore(h, genesis, s), [Live(s.m.(text := text))]);
    MemoryLeafBinds(s.m.(text := text), s.m);
  }

  lemma SceneIsLogged(h: HashFn, genesis: Digest, s: Scene)
    requires InOrder(h, s)
    ensures SealedMemories(h, genesis, Ops(s), 1) == [s.m]
  {
    hide Seal, MemoryDigest, QuestDigest, MetaLeafDigest, NodeDigest, DayRootDigest, SealedStore;
    var ops := Ops(s);
    var one := State([Live(s.m)], [], [], map[], map[]);
    SealOfScene(h, genesis, s);
    InTheWindow(h, s);
    assert ops[1..] == [ops[1], ops[2]] && ops[1..][1..] == [ops[2]] && [ops[2]][1..] == [];
    assert Apply(h, genesis, FRESH, ops[0]) == one && Apply(h, genesis, one, ops[1]) == OpenStore(s);
    var log: SealLog := map[];
    assert LogStep(h, genesis, OpenStore(s), ops[2], log) == log[1 := [s.m]];
    assert Logged(h, genesis, OpenStore(s), [ops[2]], log) == log[1 := [s.m]];
    assert Logged(h, genesis, one, ops[1..], log) == log[1 := [s.m]];
    assert Logged(h, genesis, FRESH, ops, log) == log[1 := [s.m]];
  }

  // --- the check a caller can make --------------------------------------------------------------------

  /** The memory's leaf is among the rows stored for the day. */
  predicate LeafStored(h: HashFn, w: State, seqNo: nat, m: Memory) {
    h(MemoryPreimage(m)) in LeafDigests(LeavesOf(w, seqNo))
  }

  /** A memory with this salt, id, text and time is among those sealed. */
  predicate WasSealed(m: Memory, memories: seq<Memory>) {
    exists j :: 0 <= j < |memories| && SameMemory(m, memories[j])
  }

  lemma WasSealedExact(m: Memory, memories: seq<Memory>)
    ensures MemoryPreimage(m) in MemoryPreimages(memories) <==> WasSealed(m, memories)
  {
    hide MemoryPreimage;
    var ps := MemoryPreimages(memories);
    if MemoryPreimage(m) in ps {
      var j :| 0 <= j < |ps| && ps[j] == MemoryPreimage(m);
      MemoryLeafBinds(m, memories[j]);
    }
    if WasSealed(m, memories) {
      var j :| 0 <= j < |memories| && SameMemory(m, memories[j]);
      MemoryLeafBinds(m, memories[j]);
      assert ps[j] == MemoryPreimage(m);
    }
  }

  /** Everything hashed in comparing the day and looking for the memory in it. */
  function MemoryCompared(h: HashFn, v: State, f: Footage, memories: seq<Memory>, w: State, g: Footage,
                          m: Memory): set<Preimage>
    requires Rederived(h, w, g).Ok? && AllAnswered(DayVerdicts(v, f))
  {
    BothHashed(h, DayPreimages(v, f, memories), Rederived(h, w, g).value, [MemoryPreimage(m)])
  }

  /** Whatever count the day records, a memory whose leaf is stored was sealed; or a
      collision is exhibited. */
  lemma StoredLeafWasSealed(h: HashFn, v: State, f: Footage, memories: seq<Memory>, w: State, g: Footage, m: Memory)
    requires CheckDay(h, v, Sealer, f) == Ok(Good) && CheckDay(h, w, Sealer, g) == Ok(Good)
    requires RecordOf(f) == RecordOf(g) && LeavesOf(v, f.seqNo) == MemoryLeaves(h, memories)
    requires LeafStored(h, w, g.seqNo, m)
    ensures AllAnswered(DayVerdicts(v, f)) && Rederived(h, w, g).Ok?
    ensures WasSealed(m, memories) || Collides(h, MemoryCompared(h, v, f, memories, w, g, m))
  {
    hide DayVerdicts, DayPreimages, LeavesOf, MemoryLeaves, RootOfSet, FrontierOf, NodesHashed, MemoryPreimage,
         Rederived, WasSealed, Collides;
    SealedParts(h, v, f, memories);
    PreimagesAreLeaves(v, f, memories);
    MemoryTag(m);
    RowIsDerived(h, w, g, h(MemoryPreimage(m)));
    RootBindsFrontier(h, DayPreimages(v, f, memories), Rederived(h, w, g).value, [MemoryPreimage(m)]);
    if !Collides(h, MemoryCompared(h, v, f, memories, w, g, m)) {
      assert MemoryPreimage(m) in [MemoryPreimage(m)];
      TagsOfDay(v, f, memories, MemoryPreimage(m));
      WasSealedExact(m, memories);
    }
  }

  lemma RowIsDerived(h: HashFn, w: State, g: Footage, d: Digest)
    requires Rederived(h, w, g).Ok? && d in LeafDigests(LeavesOf(w, g.seqNo))
    ensures d in Rederived(h, w, g).value
  {
    hide ActivityLeaves, MetaDigest, LeavesOf;
  }

  /** On a day whose count is the sealed one, the leaf of every memory that was sealed is
      still stored. */
  lemma SealedLeafIsStored(h: HashFn, v: State, f: Footage, memories: seq<Memory>, w: State, g: Footage, m: Memory)
    requires Survives(h, v, f, memories, w, g) && f.leafCount == g.leafCount && WasSealed(m, memories)
    ensures LeafStored(h, w, g.seqNo, m)
  {
    hide MemoryPreimage, FrontierOf, IssuesWithin, AnswersWithin, Rederived, LeavesOf, SameMemory;
    WasSealedExact(m, memories);
    var ps := MemoryPreimages(memories);
    var j :| 0 <= j < |ps| && ps[j] == MemoryPreimage(m);
    assert LeafDigests(MemoryLeaves(h, memories))[j] == h(MemoryPreimage(m));
    assert h(MemoryPreimage(m)) in multiset(LeafDigests(LeavesOf(w, g.seqNo)));
  }

  /** What hashing a memory again says of day `i` of the store `w`. */
  ghost predicate MemoryTold(h: HashFn, genesis: Digest, ops: seq<Op>, w: State, i: nat, m: Memory) {
    var v := Run(h, genesis, FRESH, ops);
    && i < |v.footage| && i < |w.footage|
    && (LeafStored(h, w, i + 1, m) ==> WasSealed(m, SealedMemories(h, genesis, ops, i + 1)))
    && (v.footage[i].leafCount == w.footage[i].leafCount ==>
          (LeafStored(h, w, i + 1, m) <==> WasSealed(m, SealedMemories(h, genesis, ops, i + 1))))
  }

  ghost predicate MemoryBreaks(h: HashFn, genesis: Digest, ops: seq<Op>, w: State, i: nat, m: Memory) {
    var v := Run(h, genesis, FRESH, ops);
    && i < |v.footage| && i < |w.footage|
    && AllAnswered(DayVerdicts(v, v.footage[i])) && Rederived(h, w, w.footage[i]).Ok?
    && Collides(h, MemoryCompared(h, v, v.footage[i], SealedMemories(h, genesis, ops, i + 1), w, w.footage[i], m))
  }

  /** The memory check over a whole history. In any store that `verify` finds clean with
      the tip link of the vault a device sealed, a memory whose leaf is stored for a day
      was sealed that day with this salt, id, text and time; and where the day's count
      is the sealed one, its leaf is stored exactly when it was. Or a collision is
      exhibited. */
  lemma MemoryCheckExact(h: HashFn, genesis: Digest, ops: seq<Op>, genesis': Digest, w: State, m: Memory)
    requires Run(h, genesis, FRESH, ops).footage != [] && w.footage != []
    requires Clean(h, genesis', w) && Unsaturated(w) && Unsaturated(Run(h, genesis, FRESH, ops))
    requires TipLink(genesis, Run(h, genesis, FRESH, ops).footage) == TipLink(genesis', w.footage)
    ensures var v := Run(h, genesis, FRESH, ops);
      || Collides(h, RecordPreimages(Records(v.footage)) + RecordPreimages(Records(w.footage)))
      || (exists i :: DayBreaks(h, genesis, ops, w, i) || MemoryBreaks(h, genesis, ops, w, i, m))
      || forall i :: 0 <= i < |v.footage| ==> MemoryTold(h, genesis, ops, w, i, m)
  {
    hide Run, CheckDay, VerdictFrom, Verified, Collides, MemoryCompared, DayCompared, Clean, SealedMemories, Sound,
         LeavesOf, MemoryLeaves, DayVerdicts, Rederived, LeafStored, WasSealed, DayBreaks, Survives;
    var v := Run(h, genesis, FRESH, ops);
    DaysAreLogged(h, genesis, ops);
    SoundIsNumbered(h, genesis, v);
    CleanExact(h, genesis', w);
    HistorySurvives(h, genesis, ops, genesis', w);
    if Records(v.footage) == Records(w.footage)
       && forall i :: 0 <= i < |v.footage| ==> DayStands(h, genesis, ops, w, i)
    {
      forall i | 0 <= i < |v.footage|
        ensures MemoryTold(h, genesis, ops, w, i, m) || MemoryBreaks(h, genesis, ops, w, i, m)
      {
        assert DayStands(h, genesis, ops, w, i);
        assert Records(v.footage)[i] == Records(w.footage)[i];
        var memories := SealedMemories(h, genesis, ops, i + 1);
        if LeafStored(h, w, i + 1, m) {
          StoredLeafWasSealed(h, v, v.footage[i], memories, w, w.footage[i], m);
        } else if v.footage[i].leafCount == w.footage[i].leafCount && WasSealed(m, memories) {
          SealedLeafIsStored(h, v, v.footage[i], memories, w, w.footage[i], m);
        }
      }
    }
  }
}
