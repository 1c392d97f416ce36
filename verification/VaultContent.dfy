/** What a tip binds beyond digests: the records of each day, field by field.

    A log of what every seal took is kept beside the run, so that a sealed day has leaf
    preimages and not only leaf digests. Against those, any store that `verify` finds
    clean under the same tip is a frontier of what was sealed: it can hide quests and
    verdicts, and can add or change none. */
module VaultContent {
  import opened Basics
  import opened Hashing
  import opened Merkle
  import opened MerkleLaws
  import opened MerkleProofs
  import opened MerkleFrontier
  import opened Calendar
  import opened Chain
  import opened Canonical
  import opened Leaves
  import opened Vault
  import opened VaultLaws
  import opened VaultRuns
  import opened VaultExact
  import opened VaultBinding

  // --- what each seal took ------------------------------------------------------------------------

  type SealLog = map<nat, seq<Memory>>

  function LogStep(h: HashFn, genesis: Digest, v: State, op: Op, log: SealLog): SealLog {
    match op
    case SealDay(date, tz, start, end, version, draftOk) =>
      if Seal(h, genesis, Sealer, v, date, tz, start, end, version, draftOk).Ok?
      then log[TipSeq(v.footage) + 1 := Window(v.memories, start, end)]
      else log
    case _ => log
  }

  function Logged(h: HashFn, genesis: Digest, v: State, ops: seq<Op>, log: SealLog): SealLog
    decreases |ops|
  {
    if ops == [] then log
    else Logged(h, genesis, Apply(h, genesis, v, ops[0]), ops[1..], LogStep(h, genesis, v, ops[0], log))
  }

  /** The memories day `seqNo` was sealed over, whatever has become of them since. */
  function SealedMemories(h: HashFn, genesis: Digest, ops: seq<Op>, seqNo: nat): seq<Memory> {
    var log := Logged(h, genesis, FRESH, ops, map[]);
    if seqNo in log then log[seqNo] else []
  }

  ghost predicate Kept(h: HashFn, v: State, log: SealLog) {
    forall s :: 1 <= s <= |v.footage| ==> KeptDay(h, v, log, s)
  }

  predicate KeptDay(h: HashFn, v: State, log: SealLog, seqNo: nat) {
    seqNo in log && LeavesOf(v, seqNo) == MemoryLeaves(h, log[seqNo])
  }

  lemma StepLogs(h: HashFn, genesis: Digest, v: State, op: Op, log: SealLog)
    requires Sound(h, genesis, v) && Kept(h, v, log)
    ensures Kept(h, Apply(h, genesis, v, op), LogStep(h, genesis, v, op, log))
  {
    hide Seal, BuildRoot, MemoryLeaves, Window, IssueQuest, AnswerQuest, DaysGood, LeavesOf;
    var w := Apply(h, genesis, v, op);
    match op {
      case SealDay(date, tz, start, end, version, draftOk) =>
        if Seal(h, genesis, Sealer, v, date, tz, start, end, version, draftOk).Ok? {
          SeqNumbers(h, genesis, v.footage);
          SealShape(h, genesis, v, date, tz, start, end, version, draftOk);
          SealTakes(h, genesis, v, date, tz, start, end, version, draftOk);
          forall s | 1 <= s <= |w.footage|
            ensures KeptDay(h, w, LogStep(h, genesis, v, op, log), s)
          {
            if s <= |v.footage| {
              assert KeptDay(h, v, log, s);
            }
          }
        }
      case Answer(id, verdict, now, slotId, slotSalt, ok) =>
        AnswerShape(v, id, verdict, now, slotId, slotSalt, ok);
        SameLeafRows(h, v, w, log);
      case Issue(q) =>
        IssueShape(v, q);
        SameLeafRows(h, v, w, log);
      case _ => SameLeafRows(h, v, w, log);
    }
  }

  lemma IssueShape(v: State, q: Quest)
    ensures var w := OrElse(IssueQuest(v, q), v); w.footage == v.footage && w.leaves == v.leaves
  {
  }

  lemma SameLeafRows(h: HashFn, v: State, w: State, log: SealLog)
    requires Kept(h, v, log) && w.footage == v.footage && w.leaves == v.leaves
    ensures Kept(h, w, log)
  {
    hide MemoryLeaves;
    forall s | 1 <= s <= |w.footage|
      ensures KeptDay(h, w, log, s)
    {
      assert KeptDay(h, v, log, s);
    }
  }

  lemma SealTakes(h: HashFn, genesis: Digest, v: State, date: Date, tz: TzName, start: i64, end: i64,
                  version: Version, draftOk: bool)
    requires Sound(h, genesis, v)
    requires Seal(h, genesis, Sealer, v, date, tz, start, end, version, draftOk).Ok?
    ensures LeavesOf(Seal(h, genesis, Sealer, v, date, tz, start, end, version, draftOk).value, |v.footage| + 1)
         == MemoryLeaves(h, Window(v.memories, start, end))
  {
    hide Seal, MemoryLeaves, Window, LeavesOf, DayLeaves, LinkOf, TipLink;
    SealedDay(h, genesis, v, date, tz, start, end, version, draftOk);
  }

  lemma {:induction false} RunLogs(h: HashFn, genesis: Digest, v: State, ops: seq<Op>, log: SealLog)
    requires Sound(h, genesis, v) && Kept(h, v, log)
    ensures Kept(h, Run(h, genesis, v, ops), Logged(h, genesis, v, ops, log))
    decreases |ops|
  {
    hide Sound, Apply, LogStep, Kept, DaysFrozen;
    if ops != [] {
      StepKeeps(h, genesis, v, ops[0]);
      StepLogs(h, genesis, v, ops[0], log);
      RunLogs(h, genesis, Apply(h, genesis, v, ops[0]), ops[1..], LogStep(h, genesis, v, ops[0], log));
    }
  }

  // --- a day's leaf preimages -----------------------------------------------------------------------

  /** The quests and verdicts `verify` re-derives for a day, under the day's version. */
  function DayQuests(v: State, f: Footage): seq<QuestRow> {
    if f.version == MemoriesOnly then [] else QuestsStamped(v.quests, Some(f.seqNo))
  }

  function DayVerdicts(v: State, f: Footage): seq<QuestRow> {
    if f.version == MemoriesOnly then [] else VerdictsStamped(v.quests, Some(f.seqNo))
  }

  predicate AllAnswered(rows: seq<QuestRow>) {
    forall i :: 0 <= i < |rows| ==> rows[i].quest.verdict.Some?
  }

  function MemoryPreimages(memories: seq<Memory>): (ps: seq<Preimage>)
    ensures |ps| == |memories| && forall i :: 0 <= i < |ps| ==> ps[i] == MemoryPreimage(memories[i])
  {
    seq(|memories|, i requires 0 <= i < |memories| => MemoryPreimage(memories[i]))
  }

  function QuestPreimages(rows: seq<QuestRow>): (ps: seq<Preimage>)
    ensures |ps| == |rows| && forall i :: 0 <= i < |ps| ==> ps[i] == QuestPreimage(rows[i].quest)
  {
    seq(|rows|, i requires 0 <= i < |rows| => QuestPreimage(rows[i].quest))
  }

  function AnswerPreimage(r: QuestRow): Preimage
    requires r.quest.verdict.Some?
  {
    VerdictPreimage(r.quest, r.quest.verdict.value, AnsweredAt(r))
  }

  function VerdictPreimages(rows: seq<QuestRow>): (ps: seq<Preimage>)
    requires AllAnswered(rows)
    ensures |ps| == |rows| && forall i :: 0 <= i < |ps| ==> ps[i] == AnswerPreimage(rows[i])
  {
    seq(|rows|, i requires 0 <= i < |rows| => AnswerPreimage(rows[i]))
  }

  function MetaOf(f: Footage, memories: nat): Preimage {
    MetaPreimage(f.seqNo, f.date, f.tz, Saturate32(memories))
  }

  /** The preimages of the leaves `verify` makes itself: all but the stored rows. */
  function OwnPreimages(v: State, f: Footage): seq<Preimage>
    requires AllAnswered(DayVerdicts(v, f))
  {
    [MetaOf(f, |LeavesOf(v, f.seqNo)|)] + QuestPreimages(DayQuests(v, f)) + VerdictPreimages(DayVerdicts(v, f))
  }

  /** All the preimages of a day sealed over `memories`. */
  function DayPreimages(v: State, f: Footage, memories: seq<Memory>): seq<Preimage>
    requires AllAnswered(DayVerdicts(v, f))
  {
    [MetaOf(f, |memories|)] + MemoryPreimages(memories)
      + QuestPreimages(DayQuests(v, f)) + VerdictPreimages(DayVerdicts(v, f))
  }

  lemma {:induction false} QuestDigests(h: HashFn, rows: seq<QuestRow>)
    ensures QuestLeaves(h, rows) == Digests(h, QuestPreimages(rows))
  {
    hide QuestPreimage;
    if rows != [] {
      QuestDigests(h, rows[1..]);
      assert QuestPreimages(rows) == [QuestPreimage(rows[0].quest)] + QuestPreimages(rows[1..]);
    }
  }

  lemma {:induction false} VerdictDigests(h: HashFn, rows: seq<QuestRow>)
    ensures VerdictLeaves(h, rows).Ok? <==> AllAnswered(rows)
    ensures VerdictLeaves(h, rows).Ok? ==> VerdictLeaves(h, rows).value == Digests(h, VerdictPreimages(rows))
  {
    hide VerdictPreimage;
    if rows != [] {
      VerdictDigests(h, rows[1..]);
      assert AllAnswered(rows) <==> rows[0].quest.verdict.Some? && AllAnswered(rows[1..]);
      if AllAnswered(rows) {
        assert VerdictPreimages(rows) == [AnswerPreimage(rows[0])] + VerdictPreimages(rows[1..]);
      }
    }
  }

  /** What `verify` re-derives, taken apart. */
  lemma DerivedParts(h: HashFn, v: State, f: Footage)
    requires Rederived(h, v, f).Ok?
    ensures AllAnswered(DayVerdicts(v, f))
    ensures Rederived(h, v, f).value ==
      [h(MetaOf(f, |LeavesOf(v, f.seqNo)|))] + LeafDigests(LeavesOf(v, f.seqNo))
      + Digests(h, QuestPreimages(DayQuests(v, f))) + Digests(h, VerdictPreimages(DayVerdicts(v, f)))
  {
    hide MetaPreimage, QuestLeaves, VerdictLeaves, QuestsStamped, VerdictsStamped;
    QuestDigests(h, DayQuests(v, f));
    VerdictDigests(h, DayVerdicts(v, f));
    var meta, rows := [h(MetaOf(f, |LeavesOf(v, f.seqNo)|))], LeafDigests(LeavesOf(v, f.seqNo));
    var a, b := Digests(h, QuestPreimages(DayQuests(v, f))), Digests(h, VerdictPreimages(DayVerdicts(v, f)));
    assert meta + rows + (a + b) == meta + rows + a + b;
    assert f.version == MemoriesOnly ==> meta + rows + a + b == meta + rows;
  }

  lemma SealedParts(h: HashFn, v: State, f: Footage, memories: seq<Memory>)
    requires Rederived(h, v, f).Ok? && LeavesOf(v, f.seqNo) == MemoryLeaves(h, memories)
    ensures AllAnswered(DayVerdicts(v, f))
    ensures Rederived(h, v, f).value == Digests(h, DayPreimages(v, f, memories))
  {
    hide Rederived, MetaPreimage, MemoryPreimage, DayQuests, DayVerdicts, QuestPreimages, VerdictPreimages, LeavesOf;
    DerivedParts(h, v, f);
    assert LeafDigests(MemoryLeaves(h, memories)) == Digests(h, MemoryPreimages(memories));
    var a, b := [MetaOf(f, |memories|)], MemoryPreimages(memories);
    DigestsJoin(h, a, b);
    DigestsJoin(h, a + b, QuestPreimages(DayQuests(v, f)));
    DigestsJoin(h, a + b + QuestPreimages(DayQuests(v, f)), VerdictPreimages(DayVerdicts(v, f)));
    assert Digests(h, a) == [h(a[0])];
  }

  lemma DigestsJoin(h: HashFn, a: seq<Preimage>, b: seq<Preimage>)
    ensures Digests(h, a + b) == Digests(h, a) + Digests(h, b)
  {
  }

  lemma PreimagesAreLeaves(v: State, f: Footage, memories: seq<Memory>)
    requires AllAnswered(DayVerdicts(v, f))
    ensures AllLeaves(DayPreimages(v, f, memories)) && AllLeaves(OwnPreimages(v, f))
  {
    hide DayQuests, DayVerdicts, ToCanonicalCbor;
  }


  // --- what any clean store shares with the one that sealed ---------------------------------------------

  predicate SameIssue(r: QuestRow, q: QuestRow) {
    r.quest.issued == q.quest.issued && r.quest.leafSalt == q.quest.leafSalt
  }

  predicate SameAnswer(r: QuestRow, q: QuestRow) {
    && r.quest.verdict.Some? && q.quest.verdict.Some?
    && r.quest.issued.id == q.quest.issued.id && r.quest.verdictSalt == q.quest.verdictSalt
    && SameShapeOfAnswer(r.quest.verdict.value, q.quest.verdict.value) && AnsweredAt(r) == AnsweredAt(q)
  }

  /** Every quest among `rows` is, as issued and under its salt, among `others`. */
  ghost predicate IssuesWithin(rows: seq<QuestRow>, others: seq<QuestRow>) {
    forall i :: 0 <= i < |rows| ==> HasIssue(rows[i], others)
  }

  predicate HasIssue(r: QuestRow, others: seq<QuestRow>) {
    exists j :: 0 <= j < |others| && SameIssue(r, others[j])
  }

  /** Every answer among `rows` is, in all a leaf commits to, among `others`. */
  ghost predicate AnswersWithin(rows: seq<QuestRow>, others: seq<QuestRow>) {
    forall i :: 0 <= i < |rows| ==> HasAnswer(rows[i], others)
  }

  predicate HasAnswer(r: QuestRow, others: seq<QuestRow>) {
    exists j :: 0 <= j < |others| && SameAnswer(r, others[j])
  }

  lemma IssueExact(r: QuestRow, rows: seq<QuestRow>)
    ensures QuestPreimage(r.quest) in QuestPreimages(rows) <==> HasIssue(r, rows)
  {
    hide QuestPreimage;
    var ps := QuestPreimages(rows);
    if QuestPreimage(r.quest) in ps {
      var j :| 0 <= j < |ps| && ps[j] == QuestPreimage(r.quest);
      QuestLeafBinds(r.quest, rows[j].quest);
      assert SameIssue(r, rows[j]);
    }
    if HasIssue(r, rows) {
      var j :| 0 <= j < |rows| && SameIssue(r, rows[j]);
      QuestLeafBinds(r.quest, rows[j].quest);
      assert ps[j] == QuestPreimage(r.quest);
    }
  }

  lemma AnswerExact(r: QuestRow, rows: seq<QuestRow>)
    requires r.quest.verdict.Some? && AllAnswered(rows)
    ensures AnswerPreimage(r) in VerdictPreimages(rows) <==> HasAnswer(r, rows)
  {
    hide VerdictPreimage, SameShapeOfAnswer;
    var ps := VerdictPreimages(rows);
    if AnswerPreimage(r) in ps {
      var j :| 0 <= j < |ps| && ps[j] == AnswerPreimage(r);
      VerdictLeafBinds(r.quest, r.quest.verdict.value, AnsweredAt(r), rows[j].quest, rows[j].quest.verdict.value,
          AnsweredAt(rows[j]));
      assert SameAnswer(r, rows[j]);
    }
    if HasAnswer(r, rows) {
      var j :| 0 <= j < |rows| && SameAnswer(r, rows[j]);
      VerdictLeafBinds(r.quest, r.quest.verdict.value, AnsweredAt(r), rows[j].quest, rows[j].quest.verdict.value,
          AnsweredAt(rows[j]));
      assert ps[j] == AnswerPreimage(r);
    }
  }

  /** Which part of the day a preimage is from is decided by its tag. */
  lemma TagsOfDay(v: State, f: Footage, memories: seq<Memory>, p: Preimage)
    requires AllAnswered(DayVerdicts(v, f)) && p in DayPreimages(v, f, memories)
    ensures p.tag.MetaLeaf? ==> p == MetaOf(f, |memories|)
    ensures p.tag.MemoryLeaf? ==> p in MemoryPreimages(memories)
    ensures p.tag.QuestLeaf? ==> p in QuestPreimages(DayQuests(v, f))
    ensures p.tag.VerdictLeaf? ==> p in VerdictPreimages(DayVerdicts(v, f))
  {
    hide DayQuests, DayVerdicts, ToCanonicalCbor, MetaMessage;
  }

  // --- one day -------------------------------------------------------------------------------------------

  /** The day's quests and answers, as preimages. */
  function ActivityPreimages(v: State, f: Footage): seq<Preimage>
    requires AllAnswered(DayVerdicts(v, f))
  {
    QuestPreimages(DayQuests(v, f)) + VerdictPreimages(DayVerdicts(v, f))
  }

  ghost predicate Contained(ps: seq<Preimage>, qs: seq<Preimage>) {
    forall p :: p in ps ==> p in qs
  }

  /** Containment of preimages is containment of records. */
  lemma WithinExact(v: State, f: Footage, w: State, g: Footage)
    requires AllAnswered(DayVerdicts(v, f)) && AllAnswered(DayVerdicts(w, g))
    ensures Contained(ActivityPreimages(v, f), ActivityPreimages(w, g)) <==>
      IssuesWithin(DayQuests(v, f), DayQuests(w, g)) && AnswersWithin(DayVerdicts(v, f), DayVerdicts(w, g))
  {
    hide DayQuests, DayVerdicts, QuestPreimages, VerdictPreimages, IssuesWithin, AnswersWithin;
    IssuesExact(DayQuests(v, f), w, g);
    AnswersExact(DayVerdicts(v, f), w, g);
  }

  lemma IssuesExact(rows: seq<QuestRow>, w: State, g: Footage)
    requires AllAnswered(DayVerdicts(w, g))
    ensures Contained(QuestPreimages(rows), ActivityPreimages(w, g)) <==> IssuesWithin(rows, DayQuests(w, g))
  {
    hide DayQuests, DayVerdicts, ActivityPreimages, HasIssue, QuestPreimage;
    var ps := QuestPreimages(rows);
    forall i | 0 <= i < |rows|
      ensures ps[i] in ActivityPreimages(w, g) <==> HasIssue(rows[i], DayQuests(w, g))
    {
      IssueExact(rows[i], DayQuests(w, g));
      QuestTag(rows[i].quest);
      KindsApart(w, g, ps[i]);
    }
    MembersByIndex(ps, ActivityPreimages(w, g));
  }

  lemma AnswersExact(rows: seq<QuestRow>, w: State, g: Footage)
    requires AllAnswered(rows) && AllAnswered(DayVerdicts(w, g))
    ensures Contained(VerdictPreimages(rows), ActivityPreimages(w, g)) <==> AnswersWithin(rows, DayVerdicts(w, g))
  {
    hide DayQuests, DayVerdicts, ActivityPreimages, HasAnswer, AnswerPreimage;
    var ps := VerdictPreimages(rows);
    forall i | 0 <= i < |rows|
      ensures ps[i] in ActivityPreimages(w, g) <==> HasAnswer(rows[i], DayVerdicts(w, g))
    {
      AnswerExact(rows[i], DayVerdicts(w, g));
      AnswerTag(rows[i]);
      KindsApart(w, g, ps[i]);
    }
    MembersByIndex(ps, ActivityPreimages(w, g));
  }

  lemma MembersByIndex(ps: seq<Preimage>, qs: seq<Preimage>)
    ensures Contained(ps, qs) <==> forall i :: 0 <= i < |ps| ==> ps[i] in qs
  {
    if Contained(ps, qs) {
      forall i | 0 <= i < |ps|
        ensures ps[i] in qs
      {
        assert ps[i] in ps;
      }
    }
  }

  lemma QuestTag(q: Quest)
    ensures QuestPreimage(q).tag.QuestLeaf?
  {
    hide ToCanonicalCbor;
  }

  lemma AnswerTag(r: QuestRow)
    requires r.quest.verdict.Some?
    ensures AnswerPreimage(r).tag.VerdictLeaf?
  {
    hide ToCanonicalCbor;
  }

  lemma KindsApart(v: State, f: Footage, p: Preimage)
    requires AllAnswered(DayVerdicts(v, f))
    ensures p.tag.QuestLeaf? ==> (p in ActivityPreimages(v, f) <==> p in QuestPreimages(DayQuests(v, f)))
    ensures p.tag.VerdictLeaf? ==> (p in ActivityPreimages(v, f) <==> p in VerdictPreimages(DayVerdicts(v, f)))
  {
    hide DayQuests, DayVerdicts, QuestPreimage, AnswerPreimage;
    var qs, vs := DayQuests(v, f), DayVerdicts(v, f);
    forall i | 0 <= i < |qs|
      ensures QuestPreimages(qs)[i].tag.QuestLeaf?
    {
      QuestTag(qs[i].quest);
    }
    forall i | 0 <= i < |vs|
      ensures VerdictPreimages(vs)[i].tag.VerdictLeaf?
    {
      AnswerTag(vs[i]);
    }
  }

  /** No quest or answer the day was sealed over is missing from the other store. */
  ghost predicate NothingHidden(v: State, f: Footage, w: State, g: Footage) {
    IssuesWithin(DayQuests(v, f), DayQuests(w, g)) && AnswersWithin(DayVerdicts(v, f), DayVerdicts(w, g))
  }

  /** How a clean day of another store stands to the day that was sealed. */
  ghost predicate Survives(h: HashFn, v: State, f: Footage, memories: seq<Memory>, w: State, g: Footage) {
    && Rederived(h, v, f).Ok? && Rederived(h, w, g).Ok?
    && FrontierOf(h, Rederived(h, w, g).value, Rederived(h, v, f).value)
    && |LeavesOf(w, g.seqNo)| == |memories|
    && IssuesWithin(DayQuests(w, g), DayQuests(v, f)) && AnswersWithin(DayVerdicts(w, g), DayVerdicts(v, f))
    && (f.leafCount == g.leafCount <==> NothingHidden(v, f, w, g))
    && (f.leafCount == g.leafCount ==>
          multiset(LeafDigests(LeavesOf(w, g.seqNo))) == multiset(LeafDigests(MemoryLeaves(h, memories))))
  }

  /** Everything hashed in comparing the two days. */
  function DayCompared(h: HashFn, v: State, f: Footage, memories: seq<Memory>, w: State, g: Footage): set<Preimage>
    requires Rederived(h, w, g).Ok? && AllAnswered(DayVerdicts(v, f)) && AllAnswered(DayVerdicts(w, g))
  {
    BothHashed(h, DayPreimages(v, f, memories), Rederived(h, w, g).value, OwnPreimages(w, g))
  }

  lemma OwnIsDerived(h: HashFn, w: State, g: Footage)
    requires Rederived(h, w, g).Ok?
    ensures AllAnswered(DayVerdicts(w, g))
    ensures forall q :: q in OwnPreimages(w, g) ==> h(q) in Rederived(h, w, g).value
  {
    hide Rederived, DayQuests, DayVerdicts, QuestPreimages, VerdictPreimages, MetaPreimage, LeavesOf;
    DerivedParts(h, w, g);
    var qs, vs := QuestPreimages(DayQuests(w, g)), VerdictPreimages(DayVerdicts(w, g));
    DigestsMembers(h, qs);
    DigestsMembers(h, vs);
  }

  lemma DigestsMembers(h: HashFn, ps: seq<Preimage>)
    ensures forall p :: p in ps ==> h(p) in Digests(h, ps)
  {
    forall p | p in ps
      ensures h(p) in Digests(h, ps)
    {
      var i :| 0 <= i < |ps| && ps[i] == p;
      assert Digests(h, ps)[i] == h(p);
    }
  }

  /** Good means counted and rooted; below the saturation point the count is the size. */
  lemma GoodDay(h: HashFn, v: State, f: Footage)
    requires CheckDay(h, v, Sealer, f) == Ok(Good) && f.leafCount < U32_MAX
    ensures Rederived(h, v, f).Ok? && |Rederived(h, v, f).value| == f.leafCount
    ensures RootOfSet(h, Rederived(h, v, f).value) == Ok(f.root)
  {
    hide Rederived, RootOfSet;
  }

  lemma DistinctDay(ds: seq<Digest>)
    requires Sealed(ds).Ok?
    ensures Distinct(ds)
  {
    SealedExact(ds);
    forall i, j | 0 <= i < j < |ds|
      ensures ds[i] != ds[j]
    {
      assert Raw(ds[i]) != Raw(ds[j]);
    }
  }

  /** The day's digests: the meta leaf, the stored rows, then the activity. */
  function RowDigests(h: HashFn, v: State, f: Footage): seq<Digest> {
    [h(MetaOf(f, |LeavesOf(v, f.seqNo)|))] + LeafDigests(LeavesOf(v, f.seqNo))
  }

  lemma DerivedSplit(h: HashFn, v: State, f: Footage)
    requires Rederived(h, v, f).Ok?
    ensures AllAnswered(DayVerdicts(v, f))
    ensures Rederived(h, v, f).value == RowDigests(h, v, f) + Digests(h, ActivityPreimages(v, f))
  {
    hide Rederived, DayQuests, DayVerdicts, QuestPreimages, VerdictPreimages, MetaPreimage, LeavesOf, LeafDigests,
         Digests;
    DerivedParts(h, v, f);
    var qs, vs := QuestPreimages(DayQuests(v, f)), VerdictPreimages(DayVerdicts(v, f));
    DigestsJoin(h, qs, vs);
    var rows := RowDigests(h, v, f);
    assert rows + (Digests(h, qs) + Digests(h, vs)) == rows + Digests(h, qs) + Digests(h, vs);
  }

  /** No quest and no answer enters a sealed day twice. */
  lemma DistinctActivity(h: HashFn, v: State, f: Footage)
    requires Rederived(h, v, f).Ok? && RootOfSet(h, Rederived(h, v, f).value).Ok?
    ensures AllAnswered(DayVerdicts(v, f)) && Distinct(ActivityPreimages(v, f))
  {
    hide Rederived, RowDigests, ActivityPreimages, DayVerdicts, RootOf, Digests, Distinct;
    DerivedSplit(h, v, f);
    DistinctDay(Rederived(h, v, f).value);
    DistinctTail(h, RowDigests(h, v, f), ActivityPreimages(v, f));
  }

  lemma DistinctTail(h: HashFn, head: seq<Digest>, ps: seq<Preimage>)
    requires Distinct(head + Digests(h, ps))
    ensures Distinct(ps)
  {
    var ds := head + Digests(h, ps);
    forall i, j | 0 <= i < j < |ps|
      ensures ps[i] != ps[j]
    {
      assert ds[|head| + i] == h(ps[i]) && ds[|head| + j] == h(ps[j]);
    }
  }

  lemma ActivityTags(v: State, f: Footage, p: Preimage)
    requires AllAnswered(DayVerdicts(v, f)) && p in ActivityPreimages(v, f)
    ensures p.tag.QuestLeaf? || p.tag.VerdictLeaf?
  {
    hide DayQuests, DayVerdicts, QuestPreimage, AnswerPreimage;
    var qs, vs := DayQuests(v, f), DayVerdicts(v, f);
    if p in QuestPreimages(qs) {
      var i :| 0 <= i < |qs| && QuestPreimages(qs)[i] == p;
      QuestTag(qs[i].quest);
    } else {
      var i :| 0 <= i < |vs| && VerdictPreimages(vs)[i] == p;
      AnswerTag(vs[i]);
    }
  }

  /** The records the other store derives were all sealed, and it holds as many memory
      rows as the day had memories. */
  lemma OwnAreSealed(h: HashFn, v: State, f: Footage, memories: seq<Memory>, w: State, g: Footage)
    requires AllAnswered(DayVerdicts(v, f)) && AllAnswered(DayVerdicts(w, g))
    requires RecordOf(f) == RecordOf(g)
    requires Contained(OwnPreimages(w, g), DayPreimages(v, f, memories))
    requires |LeavesOf(w, g.seqNo)| < U32_MAX && |memories| < U32_MAX
    ensures |LeavesOf(w, g.seqNo)| == |memories|
    ensures Contained(ActivityPreimages(w, g), ActivityPreimages(v, f))
  {
    hide DayQuests, DayVerdicts, QuestPreimages, VerdictPreimages, MetaPreimage, LeavesOf, MemoryPreimages;
    var meta := MetaOf(g, |LeavesOf(w, g.seqNo)|);
    assert meta in OwnPreimages(w, g);
    MetaTag(g, |LeavesOf(w, g.seqNo)|);
    TagsOfDay(v, f, memories, meta);
    MetaPreimageInjective(g.seqNo, g.date, g.tz, Saturate32(|LeavesOf(w, g.seqNo)|), f.seqNo, f.date, f.tz,
        Saturate32(|memories|));
    forall p | p in ActivityPreimages(w, g)
      ensures p in ActivityPreimages(v, f)
    {
      assert p in OwnPreimages(w, g);
      ActivityTags(w, g, p);
      TagsOfDay(v, f, memories, p);
    }
  }

  lemma MetaTag(f: Footage, n: nat)
    ensures MetaOf(f, n).tag.MetaLeaf?
  {
    hide MetaMessage;
  }

  /** The two counts differ by exactly the quests and answers that are missing. */
  lemma CountsCompare(h: HashFn, v: State, f: Footage, memories: seq<Memory>, w: State, g: Footage)
    requires CheckDay(h, v, Sealer, f) == Ok(Good) && CheckDay(h, w, Sealer, g) == Ok(Good)
    requires f.leafCount < U32_MAX && g.leafCount < U32_MAX
    requires LeavesOf(v, f.seqNo) == MemoryLeaves(h, memories) && |LeavesOf(w, g.seqNo)| == |memories|
    requires AllAnswered(DayVerdicts(v, f)) && AllAnswered(DayVerdicts(w, g))
    requires Contained(ActivityPreimages(w, g), ActivityPreimages(v, f))
    ensures f.leafCount == g.leafCount <==> Contained(ActivityPreimages(v, f), ActivityPreimages(w, g))
  {
    hide CheckDay, Rederived, DayQuests, DayVerdicts, QuestPreimages, VerdictPreimages, MetaPreimage, LeavesOf,
         MemoryLeaves, RootOfSet;
    GoodDay(h, v, f);
    GoodDay(h, w, g);
    DerivedParts(h, v, f);
    DerivedParts(h, w, g);
    DistinctActivity(h, v, f);
    DistinctActivity(h, w, g);
    DistinctWithin(ActivityPreimages(w, g), ActivityPreimages(v, f));
  }

  /** With equal counts the memory leaves are those of the day as well. */
  lemma RowsCompare(h: HashFn, v: State, f: Footage, memories: seq<Memory>, w: State, g: Footage)
    requires Rederived(h, v, f).Ok? && Rederived(h, w, g).Ok?
    requires RootOfSet(h, Rederived(h, v, f).value).Ok? && RootOfSet(h, Rederived(h, w, g).value).Ok?
    requires multiset(Rederived(h, w, g).value) == multiset(Rederived(h, v, f).value)
    requires LeavesOf(v, f.seqNo) == MemoryLeaves(h, memories) && |LeavesOf(w, g.seqNo)| == |memories|
    requires RecordOf(f) == RecordOf(g) && AllAnswered(DayVerdicts(v, f)) && AllAnswered(DayVerdicts(w, g))
    requires Contained(ActivityPreimages(w, g), ActivityPreimages(v, f)) &&
        Contained(ActivityPreimages(v, f), ActivityPreimages(w, g))
    ensures multiset(LeafDigests(LeavesOf(w, g.seqNo))) == multiset(LeafDigests(MemoryLeaves(h, memories)))
  {
    hide Rederived, DayQuests, DayVerdicts, QuestPreimages, VerdictPreimages, MetaPreimage, LeavesOf, MemoryLeaves,
         RootOf;
    hide ActivityPreimages, Distinct, Contained, Digests, LeafDigests;
    var a, b := ActivityPreimages(v, f), ActivityPreimages(w, g);
    DistinctActivity(h, v, f);
    DistinctActivity(h, w, g);
    SameBag(a, b);
    DigestsOfBag(h, a, b);
    DayBag(h, v, f);
    DayBag(h, w, g);
    BagsCancel(multiset{h(MetaOf(f, |memories|))}, multiset(LeafDigests(LeavesOf(v, f.seqNo))),
               multiset(LeafDigests(LeavesOf(w, g.seqNo))), multiset(Digests(h, a)));
  }

  lemma SameBag(a: seq<Preimage>, b: seq<Preimage>)
    requires Distinct(a) && Distinct(b) && Contained(a, b) && Contained(b, a)
    ensures multiset(a) == multiset(b)
  {
    hide Distinct;
    DistinctBag(a);
    DistinctBag(b);
  }

  lemma BagsCancel<T>(m: multiset<T>, x: multiset<T>, y: multiset<T>, n: multiset<T>)
    requires m + x + n == m + y + n
    ensures x == y
  {
    assert forall t :: (m + x + n)[t] == m[t] + x[t] + n[t] && (m + y + n)[t] == m[t] + y[t] + n[t];
  }

  lemma DayBag(h: HashFn, v: State, f: Footage)
    requires Rederived(h, v, f).Ok? && AllAnswered(DayVerdicts(v, f))
    ensures multiset(Rederived(h, v, f).value) ==
      multiset{h(MetaOf(f, |LeavesOf(v, f.seqNo)|))} + multiset(LeafDigests(LeavesOf(v, f.seqNo)))
      + multiset(Digests(h, ActivityPreimages(v, f)))
  {
    hide Rederived, ActivityPreimages, DayVerdicts, MetaPreimage, LeavesOf, LeafDigests, Digests;
    DerivedSplit(h, v, f);
  }

  lemma {:induction false} DigestsOfBag(h: HashFn, ps: seq<Preimage>, qs: seq<Preimage>)
    requires multiset(ps) == multiset(qs)
    ensures multiset(Digests(h, ps)) == multiset(Digests(h, qs))
    decreases |ps|
  {
    EqualBagsSameLength(ps, qs);
    if ps != [] {
      var j := FindEqual(ps, qs);
      WithoutMultiset(ps, 0);
      WithoutMultiset(qs, j);
      DigestsOfBag(h, Without(ps, 0), Without(qs, j));
      WithoutDigests(h, ps, 0);
      WithoutDigests(h, qs, j);
      WithoutMultiset(Digests(h, ps), 0);
      WithoutMultiset(Digests(h, qs), j);
      MultisetRestore(multiset(Digests(h, ps)), multiset(Digests(h, qs)), h(ps[0]));
    }
  }

  lemma DaySurvives(h: HashFn, v: State, f: Footage, memories: seq<Memory>, w: State, g: Footage)
    requires CheckDay(h, v, Sealer, f) == Ok(Good) && CheckDay(h, w, Sealer, g) == Ok(Good)
    requires f.leafCount < U32_MAX && g.leafCount < U32_MAX
    requires RecordOf(f) == RecordOf(g) && LeavesOf(v, f.seqNo) == MemoryLeaves(h, memories)
    ensures AllAnswered(DayVerdicts(v, f)) && AllAnswered(DayVerdicts(w, g)) && Rederived(h, w, g).Ok?
    ensures Survives(h, v, f, memories, w, g) || Collides(h, DayCompared(h, v, f, memories, w, g))
  {
    hide CheckDay, Rederived, DayQuests, DayVerdicts, OwnPreimages, DayPreimages, ActivityPreimages, LeavesOf,
         MemoryLeaves, RootOfSet, FrontierOf, IssuesWithin, AnswersWithin, NodesHashed;
    GoodDay(h, v, f);
    GoodDay(h, w, g);
    SealedParts(h, v, f, memories);
    OwnIsDerived(h, w, g);
    PreimagesAreLeaves(v, f, memories);
    PreimagesAreLeaves(w, g, []);
    var a, b := Rederived(h, v, f).value, Rederived(h, w, g).value;
    RootBindsFrontier(h, DayPreimages(v, f, memories), b, OwnPreimages(w, g));
    if !Collides(h, DayCompared(h, v, f, memories, w, g)) {
      Sizes(h, v, f);
      Sizes(h, w, g);
      OwnAreSealed(h, v, f, memories, w, g);
      CountsCompare(h, v, f, memories, w, g);
      WithinExact(v, f, w, g);
      WithinExact(w, g, v, f);
      if f.leafCount == g.leafCount {
        RootBindsSameSize(h, a, b);
        CollidesGrows(h, NodesHashed(h, a) + NodesHashed(h, b), DayCompared(h, v, f, memories, w, g));
        RowsCompare(h, v, f, memories, w, g);
      }
    }
  }

  lemma Sizes(h: HashFn, v: State, f: Footage)
    requires Rederived(h, v, f).Ok?
    ensures |LeavesOf(v, f.seqNo)| < |Rederived(h, v, f).value|
  {
    hide ActivityLeaves, MetaDigest, LeavesOf;
  }

  /** The day's check without any assumption on its count. Over a root sealed from the
      leaves `ps`, a day checks good exactly when its digests are a frontier of their
      tree and as many as its count says; or two nodes collide. */
  lemma DayCheckExact(h: HashFn, w: State, g: Footage, ps: seq<Preimage>)
    requires AllLeaves(ps) && RootOfSet(h, Digests(h, ps)) == Ok(g.root) && Rederived(h, w, g).Ok?
    ensures var b := Rederived(h, w, g).value;
      || Collides(h, BothHashed(h, ps, b, []))
      || (CheckDay(h, w, Sealer, g) == Ok(Good) <==> Saturate32(|b|) == g.leafCount && FrontierOf(h, b, Digests(h, ps)))
  {
    hide Rederived, FrontierOf, RootOfSet;
    RootBindsFrontier(h, ps, Rederived(h, w, g).value, []);
  }

  // --- the whole history ----------------------------------------------------------------------------------

  /** Every day of a run was sealed over the memories in its log. */
  lemma DaysAreLogged(h: HashFn, genesis: Digest, ops: seq<Op>)
    ensures var v := Run(h, genesis, FRESH, ops);
      && Sound(h, genesis, v)
      && forall i :: 0 <= i < |v.footage| ==>
           && v.footage[i].seqNo == i + 1
           && LeavesOf(v, v.footage[i].seqNo) == MemoryLeaves(h, SealedMemories(h, genesis, ops, v.footage[i].seqNo))
  {
    hide Run, Logged, Sound, MemoryLeaves, LeavesOf;
    var v := Run(h, genesis, FRESH, ops);
    FreshIsSound(h, genesis);
    RunKeeps(h, genesis, FRESH, ops);
    RunLogs(h, genesis, FRESH, ops, map[]);
    SoundIsNumbered(h, genesis, v);
    forall i | 0 <= i < |v.footage|
      ensures LeavesOf(v, v.footage[i].seqNo) == MemoryLeaves(h, SealedMemories(h, genesis, ops, v.footage[i].seqNo))
    {
      assert KeptDay(h, v, Logged(h, genesis, FRESH, ops, map[]), v.footage[i].seqNo);
    }
  }

  lemma SoundIsNumbered(h: HashFn, genesis: Digest, v: State)
    requires Sound(h, genesis, v)
    ensures forall i :: 0 <= i < |v.footage| ==> v.footage[i].seqNo == i + 1
    ensures forall i :: 0 <= i < |v.footage| ==> CheckDay(h, v, Sealer, v.footage[i]) == Ok(Good)
    ensures VerdictFrom(h, genesis, 1, Records(v.footage)).Ok?
  {
    hide Intact, CheckDay, VerdictFrom;
    SeqNumbers(h, genesis, v.footage);
    VerdictExact(h, genesis, Records(v.footage));
  }

  /** Day `i` of the run `ops`, against the same day of the store `w`. */
  ghost predicate DayStands(h: HashFn, genesis: Digest, ops: seq<Op>, w: State, i: nat) {
    var v := Run(h, genesis, FRESH, ops);
    && i < |v.footage| && i < |w.footage|
    && Survives(h, v, v.footage[i], SealedMemories(h, genesis, ops, i + 1), w, w.footage[i])
  }

  ghost predicate DayBreaks(h: HashFn, genesis: Digest, ops: seq<Op>, w: State, i: nat) {
    var v := Run(h, genesis, FRESH, ops);
    && i < |v.footage| && i < |w.footage|
    && AllAnswered(DayVerdicts(v, v.footage[i])) && AllAnswered(DayVerdicts(w, w.footage[i]))
    && Rederived(h, w, w.footage[i]).Ok?
    && Collides(h, DayCompared(h, v, v.footage[i], SealedMemories(h, genesis, ops, i + 1), w, w.footage[i]))
  }

  /** Tamper evidence, record by record. Take the vault a device sealed, and any store at
      all that `verify` finds clean under any genesis with the same tip link. Then, or a
      collision is exhibited among link preimages or the preimages of some day:
      the genesis and every chain record agree; each day of the store is a frontier of
      what was sealed, with as many memory rows; every quest and every answer it derives
      was sealed that day, field by field and salt by salt; and its leaf count is the
      sealed one exactly when it is missing none, in which case the memory leaves agree
      too. */
  lemma HistorySurvives(h: HashFn, genesis: Digest, ops: seq<Op>, genesis': Digest, w: State)
    requires Run(h, genesis, FRESH, ops).footage != [] && w.footage != []
    requires Clean(h, genesis', w) && Unsaturated(w) && Unsaturated(Run(h, genesis, FRESH, ops))
    requires TipLink(genesis, Run(h, genesis, FRESH, ops).footage) == TipLink(genesis', w.footage)
    ensures var v := Run(h, genesis, FRESH, ops);
      || Collides(h, RecordPreimages(Records(v.footage)) + RecordPreimages(Records(w.footage)))
      || (exists i :: DayBreaks(h, genesis, ops, w, i))
      || (&& genesis == genesis' && Records(v.footage) == Records(w.footage)
          && forall i :: 0 <= i < |v.footage| ==> DayStands(h, genesis, ops, w, i))
  {
    hide Run, CheckDay, VerdictFrom, Verified, Collides, Survives, DayCompared, Clean, SealedMemories, Sound,
         LeavesOf, MemoryLeaves, DayVerdicts, Rederived;
    var v := Run(h, genesis, FRESH, ops);
    DaysAreLogged(h, genesis, ops);
    SoundIsNumbered(h, genesis, v);
    CleanExact(h, genesis', w);
    TipFreezesThePast(h, genesis, Records(v.footage), genesis', Records(w.footage));
    if Records(v.footage) == Records(w.footage) {
      forall i | 0 <= i < |v.footage|
        ensures DayStands(h, genesis, ops, w, i) || DayBreaks(h, genesis, ops, w, i)
      {
        assert Records(v.footage)[i] == Records(w.footage)[i];
        DaySurvives(h, v, v.footage[i], SealedMemories(h, genesis, ops, i + 1), w, w.footage[i]);
      }
    }
  }

  // --- disclosing one memory --------------------------------------------------------------------------------

  predicate SameMemory(m: Memory, n: Memory) {
    m.salt == n.salt && m.id == n.id && m.text == n.text && m.occurredAt == n.occurredAt
  }

  /** The preimages of day `i` of a run. */
  function DayOf(h: HashFn, genesis: Digest, ops: seq<Op>, i: nat): seq<Preimage>
    requires var v := Run(h, genesis, FRESH, ops); i < |v.footage| && AllAnswered(DayVerdicts(v, v.footage[i]))
  {
    var v := Run(h, genesis, FRESH, ops);
    DayPreimages(v, v.footage[i], SealedMemories(h, genesis, ops, i + 1))
  }

  lemma DayOfRun(h: HashFn, genesis: Digest, ops: seq<Op>, i: nat)
    requires i < |Run(h, genesis, FRESH, ops).footage|
    ensures AllAnswered(DayVerdicts(Run(h, genesis, FRESH, ops), Run(h, genesis, FRESH, ops).footage[i]))
    ensures AllLeaves(DayOf(h, genesis, ops, i))
    ensures RootOfSet(h, Digests(h, DayOf(h, genesis, ops, i))) == Ok(Run(h, genesis, FRESH, ops).footage[i].root)
    ensures Saturate32(|DayOf(h, genesis, ops, i)|) == Run(h, genesis, FRESH, ops).footage[i].leafCount
  {
    hide Run, SealedMemories, Sound, LeavesOf, MemoryLeaves, DayVerdicts, Rederived, RootOfSet, DayPreimages,
         VerdictFrom;
    var v := Run(h, genesis, FRESH, ops);
    DaysAreLogged(h, genesis, ops);
    SoundIsNumbered(h, genesis, v);
    assert CheckDay(h, v, Sealer, v.footage[i]) == Ok(Good);
    SealedParts(h, v, v.footage[i], SealedMemories(h, genesis, ops, i + 1));
    PreimagesAreLeaves(v, v.footage[i], SealedMemories(h, genesis, ops, i + 1));
  }

  /** Selective disclosure is sound: if a proof for a memory's leaf verifies against the
      root of a sealed day, then a memory with that salt, id, text and time was sealed
      that day, whatever has been shredded since; or a collision is exhibited. */
  lemma DisclosedMemoryWasSealed(h: HashFn, genesis: Digest, ops: seq<Op>, i: nat, m: Memory, proof: MerkleProof)
    requires i < |Run(h, genesis, FRESH, ops).footage|
    requires proof.leaf == h(MemoryPreimage(m)) && Accepts(h, proof, Run(h, genesis, FRESH, ops).footage[i].root)
    ensures AllAnswered(DayVerdicts(Run(h, genesis, FRESH, ops), Run(h, genesis, FRESH, ops).footage[i]))
    ensures
      || (exists n :: n in SealedMemories(h, genesis, ops, i + 1) && SameMemory(m, n))
      || Collides(h, Hashed(h, DayOf(h, genesis, ops, i))
                     + {MemoryPreimage(m)} + PathPreimages(h, proof.leaf, proof.siblings))
  {
    hide Run, SealedMemories, Accepts, Collides, DayVerdicts, MemoryPreimage, Hashed, PathPreimages, RootOf;
    DayOfRun(h, genesis, ops, i);
    MemoryTag(m);
    var ps := DayOf(h, genesis, ops, i);
    SealedExact(Digests(h, ps));
    AcceptedProofIsHonest(h, ps, MemoryPreimage(m), proof);
    if MemoryPreimage(m) in ps {
      var v := Run(h, genesis, FRESH, ops);
      var memories := SealedMemories(h, genesis, ops, i + 1);
      TagsOfDay(v, v.footage[i], memories, MemoryPreimage(m));
      var j :| 0 <= j < |memories| && MemoryPreimages(memories)[j] == MemoryPreimage(m);
      MemoryLeafBinds(m, memories[j]);
      assert memories[j] in memories && SameMemory(m, memories[j]);
    }
  }

  lemma MemoryTag(m: Memory)
    ensures MemoryPreimage(m).tag.MemoryLeaf?
  {
    hide ToCanonicalCbor;
  }

  /** And complete: every memory a day was sealed over has a proof that verifies against
      that day's root. */
  lemma SealedMemoryDiscloses(h: HashFn, genesis: Digest, ops: seq<Op>, i: nat, m: Memory)
    requires i < |Run(h, genesis, FRESH, ops).footage| && Run(h, genesis, FRESH, ops).footage[i].leafCount < U32_MAX
    requires m in SealedMemories(h, genesis, ops, i + 1)
    ensures AllAnswered(DayVerdicts(Run(h, genesis, FRESH, ops), Run(h, genesis, FRESH, ops).footage[i]))
    ensures Sealed(Digests(h, DayOf(h, genesis, ops, i))).Ok?
    ensures var proof := ProofOf(h, Sealed(Digests(h, DayOf(h, genesis, ops, i))).value.leaves, h(MemoryPreimage(m)));
      proof.Some? && Accepts(h, proof.value, Run(h, genesis, FRESH, ops).footage[i].root)
  {
    hide Run, SealedMemories, Accepts, DayVerdicts, MemoryPreimage, RootOf, MetaPreimage, QuestPreimages,
         VerdictPreimages;
    DayOfRun(h, genesis, ops, i);
    var ps := DayOf(h, genesis, ops, i);
    var memories := SealedMemories(h, genesis, ops, i + 1);
    var j :| 0 <= j < |memories| && memories[j] == m;
    assert MemoryPreimages(memories)[j] in MemoryPreimages(memories);
    assert MemoryPreimage(m) in ps;
    DigestsMembers(h, ps);
    ProvesExactlyMembers(h, Digests(h, ps), h(MemoryPreimage(m)));
  }
}
