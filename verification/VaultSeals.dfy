/** When a seal succeeds. Over every run the leaves of the day about to be sealed come from
    distinct records, so that the tree never refuses them for its own reasons: what can
    stop a seal is a date already sealed, a draft that does not validate, numbers that have
    run out, or a hash collision among those leaves. */
module VaultSeals {
  import opened Basics
  import opened Ordering
  import opened Hashing
  import opened Merkle
  import opened MerkleLaws
  import opened Calendar
  import opened Chain
  import opened Canonical
  import opened Leaves
  import opened Vault
  import opened VaultLaws
  import opened VaultRuns
  import opened VaultExact
  import opened VaultContent
  import opened VaultWrites
  import opened VaultTakes

  // --- answered rows carry verdicts -------------------------------------------------------------------

  ghost predicate VerdictsGiven(rows: seq<QuestRow>) {
    forall i :: 0 <= i < |rows| ==> (rows[i].status == Answered ==> rows[i].quest.verdict.Some?)
  }

  lemma StepKeepsVerdicts(h: HashFn, genesis: Digest, v: State, op: Op)
    requires Sound(h, genesis, v) && VerdictsGiven(v.quests)
    ensures VerdictsGiven(Apply(h, genesis, v, op).quests)
  {
    hide Seal, DaysGood, Intact, InsertMemory, Words, FindQuest, InsertQuest;
    var w := Apply(h, genesis, v, op);
    match op {
      case Issue(p) =>
        if IssueQuest(v, p).Some? {
          InsertedQuestSane(v.quests, p, |v.footage|);
          forall i | 0 <= i < |w.quests|
            ensures w.quests[i].status == Answered ==> w.quests[i].quest.verdict.Some?
          {
            assert w.quests[i] in w.quests;
          }
        }
      case SealDay(date, tz, start, end, version, draftOk) =>
        if Seal(h, genesis, Sealer, v, date, tz, start, end, version, draftOk).Ok? {
          SealShape(h, genesis, v, date, tz, start, end, version, draftOk);
        }
      case Answer(id, verdict, now, slotId, slotSalt, ok) =>
        AnswerShape(v, id, verdict, now, slotId, slotSalt, ok);
      case _ =>
    }
  }

  lemma {:induction false} RunKeepsVerdicts(h: HashFn, genesis: Digest, v: State, ops: seq<Op>)
    requires Sound(h, genesis, v) && VerdictsGiven(v.quests)
    ensures VerdictsGiven(Run(h, genesis, v, ops).quests)
    decreases |ops|
  {
    hide Apply, Sound, VerdictsGiven, DaysFrozen;
    if ops != [] {
      StepKeeps(h, genesis, v, ops[0]);
      StepKeepsVerdicts(h, genesis, v, ops[0]);
      RunKeepsVerdicts(h, genesis, Apply(h, genesis, v, ops[0]), ops[1..]);
    }
  }

  // --- distinct records, distinct preimages --------------------------------------------------------------

  ghost predicate Apart<T(!new)>(s: seq<T>) {
    forall i, j :: 0 <= i < j < |s| ==> s[i] != s[j]
  }

  lemma {:induction false} StampedAscend(rows: seq<QuestRow>, stamp: Option<nat>)
    requires IdsAscend(rows)
    ensures IdsAscend(QuestsStamped(rows, stamp)) && IdsAscend(VerdictsStamped(rows, stamp))
    decreases |rows|
  {
    if rows != [] {
      StampedAscend(rows[1..], stamp);
      QuestsFrom(rows[1..], stamp);
      VerdictsFrom(rows[1..], stamp);
      FirstIsLeast(rows, QuestsStamped(rows[1..], stamp));
      FirstIsLeast(rows, VerdictsStamped(rows[1..], stamp));
    }
  }

  lemma FirstIsLeast(rows: seq<QuestRow>, rest: seq<QuestRow>)
    requires rows != [] && IdsAscend(rows) && IdsAscend(rest) && forall r :: r in rest ==> r in rows[1..]
    ensures IdsAscend([rows[0]] + rest)
  {
    var out := [rows[0]] + rest;
    forall i, j | 0 <= i < j < |out|
      ensures out[i].quest.issued.id < out[j].quest.issued.id
    {
      if i == 0 {
        assert rest[j - 1] in rows[1..];
      }
    }
  }

  lemma WindowIdsApart(table: seq<MemoryRow>, start: i64, end: i64)
    requires MemoriesAscend(table)
    ensures forall i, j :: 0 <= i < j < |Window(table, start, end)| ==>
      Window(table, start, end)[i].id != Window(table, start, end)[j].id
  {
    hide Window, FallsIn;
    var at := WindowSelects(table, start, end);
    var ms := Window(table, start, end);
    forall i, j | 0 <= i < j < |ms|
      ensures ms[i].id != ms[j].id
    {
      assert table[at[i]] == Live(ms[i]) && table[at[j]] == Live(ms[j]);
      assert RowId(table[at[i]]) < RowId(table[at[j]]);
    }
  }

  lemma MemoriesApart(ms: seq<Memory>)
    requires forall i, j :: 0 <= i < j < |ms| ==> ms[i].id != ms[j].id
    ensures Apart(MemoryPreimages(ms))
  {
    hide MemoryPreimage;
    forall i, j | 0 <= i < j < |ms|
      ensures MemoryPreimage(ms[i]) != MemoryPreimage(ms[j])
    {
      MemoryLeafBinds(ms[i], ms[j]);
    }
  }

  lemma QuestsApart(rows: seq<QuestRow>)
    requires IdsAscend(rows)
    ensures Apart(QuestPreimages(rows))
  {
    hide QuestPreimage;
    forall i, j | 0 <= i < j < |rows|
      ensures QuestPreimage(rows[i].quest) != QuestPreimage(rows[j].quest)
    {
      QuestLeafBinds(rows[i].quest, rows[j].quest);
    }
  }

  lemma VerdictsApart(rows: seq<QuestRow>)
    requires IdsAscend(rows) && AllAnswered(rows)
    ensures Apart(VerdictPreimages(rows))
  {
    hide VerdictPreimage, SameShapeOfAnswer;
    forall i, j | 0 <= i < j < |rows|
      ensures AnswerPreimage(rows[i]) != AnswerPreimage(rows[j])
    {
      VerdictLeafBinds(rows[i].quest, rows[i].quest.verdict.value, AnsweredAt(rows[i]), rows[j].quest,
                       rows[j].quest.verdict.value, AnsweredAt(rows[j]));
    }
  }

  ghost predicate AllTagged(ps: seq<Preimage>, tags: set<Tag>) {
    forall i :: 0 <= i < |ps| ==> ps[i].tag in tags
  }

  lemma JoinApart(a: seq<Preimage>, b: seq<Preimage>, tags: set<Tag>, tag: Tag)
    requires Apart(a) && Apart(b) && AllTagged(a, tags) && AllTagged(b, {tag}) && tag !in tags
    ensures Apart(a + b) && AllTagged(a + b, tags + {tag})
  {
  }

  // --- the leaves of the day about to be sealed ------------------------------------------------------------

  function QuestsWaiting(v: State, version: Version): seq<QuestRow> {
    if version == MemoriesOnly then [] else QuestsStamped(v.quests, None)
  }

  function VerdictsWaiting(v: State, version: Version): seq<QuestRow> {
    if version == MemoriesOnly then [] else VerdictsStamped(v.quests, None)
  }

  /** What a seal at this number would hash into leaves. */
  function SealPreimages(v: State, memories: seq<Memory>, version: Version, seqNo: u64, date: Date, tz: TzName)
    : seq<Preimage>
    requires AllAnswered(VerdictsWaiting(v, version))
  {
    [MetaPreimage(seqNo, date, tz, Saturate32(|memories|))] + MemoryPreimages(memories)
      + QuestPreimages(QuestsWaiting(v, version)) + VerdictPreimages(VerdictsWaiting(v, version))
  }

  lemma SealPreimagesApart(v: State, memories: seq<Memory>, version: Version, seqNo: u64, date: Date, tz: TzName)
    requires IdsAscend(v.quests) && AllAnswered(VerdictsWaiting(v, version))
    requires forall i, j :: 0 <= i < j < |memories| ==> memories[i].id != memories[j].id
    ensures Apart(SealPreimages(v, memories, version, seqNo, date, tz))
  {
    hide MemoryPreimages, QuestPreimages, VerdictPreimages, Apart, IdsAscend, AllAnswered, ToCanonicalCbor, AllTagged;
    StampedAscend(v.quests, None);
    var qs, vs := QuestsWaiting(v, version), VerdictsWaiting(v, version);
    NoneApart();
    MemoriesApart(memories);
    QuestsApart(qs);
    VerdictsApart(vs);
    var meta := [MetaPreimage(seqNo, date, tz, Saturate32(|memories|))];
    OneApart(meta[0]);
    LeafTags(memories, qs, vs);
    JoinApart(meta, MemoryPreimages(memories), {Tag.MetaLeaf}, Tag.MemoryLeaf);
    JoinApart(meta + MemoryPreimages(memories), QuestPreimages(qs), {Tag.MetaLeaf} + {Tag.MemoryLeaf}, Tag.QuestLeaf);
    JoinApart(meta + MemoryPreimages(memories) + QuestPreimages(qs), VerdictPreimages(vs),
              {Tag.MetaLeaf} + {Tag.MemoryLeaf} + {Tag.QuestLeaf}, Tag.VerdictLeaf);
  }

  lemma NoneApart()
    ensures IdsAscend([])
  {
  }

  lemma OneApart(p: Preimage)
    ensures Apart([p]) && AllTagged([p], {p.tag})
  {
  }

  lemma LeafTags(memories: seq<Memory>, qs: seq<QuestRow>, vs: seq<QuestRow>)
    requires AllAnswered(vs)
    ensures AllTagged(MemoryPreimages(memories), {Tag.MemoryLeaf})
    ensures AllTagged(QuestPreimages(qs), {Tag.QuestLeaf}) && AllTagged(VerdictPreimages(vs), {Tag.VerdictLeaf})
  {
    hide ToCanonicalCbor;
  }

  lemma WaitingDigests(h: HashFn, v: State, memories: seq<Memory>, version: Version, seqNo: u64, date: Date,
                       tz: TzName)
    requires AllAnswered(VerdictsWaiting(v, version))
    ensures DayLeaves(h, v, memories, version, seqNo, date, tz)
         == Ok(Digests(h, SealPreimages(v, memories, version, seqNo, date, tz)))
  {
    hide MetaPreimage, MemoryPreimages, MemoryLeaves, LeafDigests, ActivityLeaves, QuestPreimages, VerdictPreimages,
         Digests;
    RowDigestsAre(h, memories);
    ActivityDigests(h, v, version);
    var meta := [MetaPreimage(seqNo, date, tz, Saturate32(|memories|))];
    var ms, qs := MemoryPreimages(memories), QuestPreimages(QuestsWaiting(v, version));
    var vs := VerdictPreimages(VerdictsWaiting(v, version));
    FourDigests(h, meta[0], ms, qs, vs);
  }

  lemma FourDigests(h: HashFn, meta: Preimage, ms: seq<Preimage>, qs: seq<Preimage>, vs: seq<Preimage>)
    ensures Digests(h, [meta] + ms + qs + vs) == [h(meta)] + Digests(h, ms) + Digests(h, qs + vs)
    ensures qs + vs == [] ==> Digests(h, [meta] + ms + qs + vs) == [h(meta)] + Digests(h, ms)
  {
    assert [meta] + ms + qs + vs == [meta] + ms + (qs + vs);
    DigestsJoin(h, [meta] + ms, qs + vs);
    DigestsJoin(h, [meta], ms);
    assert Digests(h, [meta]) == [h(meta)];
    assert qs + vs == [] ==> [meta] + ms + (qs + vs) == [meta] + ms;
  }

  lemma ActivityDigests(h: HashFn, v: State, version: Version)
    requires AllAnswered(VerdictsWaiting(v, version))
    ensures var ps := QuestPreimages(QuestsWaiting(v, version)) + VerdictPreimages(VerdictsWaiting(v, version));
      if version == MemoriesOnly then ps == [] else ActivityLeaves(h, v.quests, None) == Ok(Digests(h, ps))
  {
    hide QuestLeaves, VerdictLeaves, QuestsStamped, VerdictsStamped, QuestPreimage, AnswerPreimage;
    QuestDigests(h, QuestsWaiting(v, version));
    VerdictDigests(h, VerdictsWaiting(v, version));
    DigestsJoin(h, QuestPreimages(QuestsWaiting(v, version)), VerdictPreimages(VerdictsWaiting(v, version)));
  }

  lemma RowDigestsAre(h: HashFn, memories: seq<Memory>)
    ensures LeafDigests(MemoryLeaves(h, memories)) == Digests(h, MemoryPreimages(memories))
  {
    hide MemoryPreimage;
  }

  lemma TreeBuilds(h: HashFn, ps: seq<Preimage>)
    requires Apart(ps) && ps != []
    ensures RootOfSet(h, Digests(h, ps)).Ok?
         || (Collides(h, SetOf(ps)) && RootOfSet(h, Digests(h, ps)) == Err(DuplicateLeaf))
  {
    hide Raw;
    var ds := Digests(h, ps);
    SealedExact(ds);
    if !Collides(h, SetOf(ps)) {
      forall i, j | 0 <= i < j < |ds|
        ensures Raw(ds[i]) != Raw(ds[j])
      {
        assert ps[i] in SetOf(ps) && ps[j] in SetOf(ps);
        if Raw(ds[i]) == Raw(ds[j]) {
          RawInjective(ds[i], ds[j]);
        }
      }
    }
  }

  // --- when a seal succeeds -----------------------------------------------------------------------------------

  ghost predicate DateSealed(footage: seq<Footage>, date: Date) {
    exists i :: 0 <= i < |footage| && footage[i].date == date
  }

  lemma {:induction false} SealedDateNumber(footage: seq<Footage>, date: Date)
    requires forall i :: 0 <= i < |footage| ==> footage[i].seqNo == i + 1
    ensures SealedDate(footage, date).Some? <==> DateSealed(footage, date)
    ensures SealedDate(footage, date).Some? ==>
      1 <= SealedDate(footage, date).value <= |footage| && footage[SealedDate(footage, date).value - 1].date == date
    decreases |footage|
  {
    if footage != [] {
      var n := |footage| - 1;
      SealedDateNumber(footage[..n], date);
      if DateSealed(footage, date) && footage[n].date != date {
        var i :| 0 <= i < |footage| && footage[i].date == date;
        assert footage[..n][i].date == date;
      }
    }
  }

  /** The hashes of the leaves a seal makes of the tables. */
  function SealHashes(v: State, version: Version, date: Date, tz: TzName, start: i64, end: i64): set<Preimage>
    requires AllAnswered(VerdictsWaiting(v, version)) && |v.footage| < MAX_SEQ
  {
    SetOf(SealPreimages(v, Window(v.memories, start, end), version, |v.footage| + 1, date, tz))
  }

  /** What a seal answers, at any point of any run, on the sealing device. The date, the
      draft and the numbers decide, and nothing else, unless two leaves of the day
      collide. */
  lemma SealAnswers(h: HashFn, genesis: Digest, ops: seq<Op>, date: Date, tz: TzName, start: i64, end: i64,
                    version: Version, draftOk: bool)
    ensures var v := Run(h, genesis, FRESH, ops);
      var r := Seal(h, genesis, Sealer, v, date, tz, start, end, version, draftOk);
      && AllAnswered(VerdictsWaiting(v, version))
      && if DateSealed(v.footage, date) then
           && r.Err? && r.error.AlreadySealed? && 1 <= r.error.seqNo <= |v.footage|
           && v.footage[r.error.seqNo - 1].date == date
         else if !draftOk then r == Err(InvalidDraft)
         else if |v.footage| >= MAX_SEQ then r == Err(DuplicateSeq)
         else r.Ok? || (Collides(h, SealHashes(v, version, date, tz, start, end)) && r == Err(BadTree(DuplicateLeaf)))
  {
    hide Run, Sound, MemoriesAscend, DaysFrozen, VerdictsGiven, Window, SealedDate, DateSealed, MarkCommitted,
         LinkPreimage, BuildRoot, SealPreimages, IdsAscend, RowsSane, Intact, Collides;
    var v := Run(h, genesis, FRESH, ops);
    FreshIsSound(h, genesis);
    RunKeeps(h, genesis, FRESH, ops);
    FreshKeys();
    RunKeepsKeys(h, genesis, FRESH, ops);
    RunKeepsVerdicts(h, genesis, FRESH, ops);
    SoundParts(h, genesis, v);
    SeqNumbers(h, genesis, v.footage);
    SealedDateNumber(v.footage, date);
    WaitingAnswered(v, version);
    if !DateSealed(v.footage, date) && draftOk && |v.footage| < MAX_SEQ {
      var memories := Window(v.memories, start, end);
      WindowIdsApart(v.memories, start, end);
      BuildsUnlessCollides(h, v, memories, version, |v.footage| + 1, date, tz);
    }
  }

  lemma BuildsUnlessCollides(h: HashFn, v: State, memories: seq<Memory>, version: Version, seqNo: u64, date: Date,
                             tz: TzName)
    requires IdsAscend(v.quests) && AllAnswered(VerdictsWaiting(v, version))
    requires forall i, j :: 0 <= i < j < |memories| ==> memories[i].id != memories[j].id
    ensures var built := BuildRoot(h, v, memories, version, seqNo, date, tz);
      built.Ok? || (built == Err(BadTree(DuplicateLeaf))
                    && Collides(h, SetOf(SealPreimages(v, memories, version, seqNo, date, tz))))
  {
    hide RootOfSet, DayLeaves, MemoryLeaves, SealPreimages, Apart, IdsAscend, AllAnswered, Collides, Digests;
    WaitingDigests(h, v, memories, version, seqNo, date, tz);
    SealPreimagesApart(v, memories, version, seqNo, date, tz);
    SomePreimage(v, memories, version, seqNo, date, tz);
    TreeBuilds(h, SealPreimages(v, memories, version, seqNo, date, tz));
  }

  lemma SomePreimage(v: State, memories: seq<Memory>, version: Version, seqNo: u64, date: Date, tz: TzName)
    requires AllAnswered(VerdictsWaiting(v, version))
    ensures SealPreimages(v, memories, version, seqNo, date, tz) != []
  {
    hide MetaPreimage;
  }

  lemma FreshKeys()
    ensures MemoriesAscend(FRESH.memories) && VerdictsGiven(FRESH.quests)
  {
  }

  lemma WaitingAnswered(v: State, version: Version)
    requires VerdictsGiven(v.quests)
    ensures AllAnswered(VerdictsWaiting(v, version))
  {
    VerdictsFrom(v.quests, None);
    var vs := VerdictsWaiting(v, version);
    forall i | 0 <= i < |vs|
      ensures vs[i].quest.verdict.Some?
    {
      assert vs[i] in vs;
    }
  }
}
