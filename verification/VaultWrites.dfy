/** What the operations between seals write, row by row, and that the next seal commits to
    it: an answer's verdict, a quest as issued, and never a shredded memory. */
module VaultWrites {
  import opened Basics
  import opened Hashing
  import opened Merkle
  import opened MerkleLaws
  import opened Calendar
  import opened Chain
  import opened Leaves
  import opened Vault
  import opened VaultLaws
  import opened VaultRuns
  import opened VaultExact

  // --- inserting a memory -----------------------------------------------------------------------------

  /** The primary key of the memory table holds: ids strictly ascend. */
  ghost predicate MemoriesAscend(rows: seq<MemoryRow>) {
    forall i, j :: 0 <= i < j < |rows| ==> RowId(rows[i]) < RowId(rows[j])
  }

  ghost predicate HasId(rows: seq<MemoryRow>, id: Uuid) {
    exists i :: 0 <= i < |rows| && RowId(rows[i]) == id
  }

  /** One row more, at position `p`, and every other row as it was. */
  predicate InsertedAt(before: seq<MemoryRow>, after: seq<MemoryRow>, p: nat, r: MemoryRow) {
    p <= |before| && after == before[..p] + [r] + before[p..]
  }

  /** A memory is taken in exactly when its id is new, shredded ones included; it becomes
      one live row, and the ids still ascend. */
  lemma {:induction false} InsertExact(rows: seq<MemoryRow>, m: Memory) returns (p: nat)
    requires MemoriesAscend(rows)
    ensures InsertMemory(rows, m).Some? <==> !HasId(rows, m.id)
    ensures InsertMemory(rows, m).Some? ==> InsertedAt(rows, InsertMemory(rows, m).value, p, Live(m))
    ensures InsertMemory(rows, m).Some? ==> MemoriesAscend(InsertMemory(rows, m).value)
    decreases |rows|
  {
    p := 0;
    if rows == [] || m.id < RowId(rows[0]) {
      assert rows[..0] + [Live(m)] + rows[0..] == [Live(m)] + rows;
    } else if m.id == RowId(rows[0]) {
    } else {
      var q := InsertExact(rows[1..], m);
      p := q + 1;
      assert HasId(rows[1..], m.id) ==> HasId(rows, m.id) by {
        if HasId(rows[1..], m.id) {
          var i :| 0 <= i < |rows[1..]| && RowId(rows[1..][i]) == m.id;
          assert RowId(rows[i + 1]) == m.id;
        }
      }
      if InsertMemory(rows[1..], m).Some? {
        InsertedBehind(rows, InsertMemory(rows[1..], m).value, q, m);
      }
    }
  }

  lemma InsertedBehind(rows: seq<MemoryRow>, rest: seq<MemoryRow>, q: nat, m: Memory)
    requires rows != [] && MemoriesAscend(rows) && m.id > RowId(rows[0])
    requires InsertedAt(rows[1..], rest, q, Live(m)) && MemoriesAscend(rest)
    ensures InsertedAt(rows, [rows[0]] + rest, q + 1, Live(m)) && MemoriesAscend([rows[0]] + rest)
  {
    var out := [rows[0]] + rest;
    assert rows[..q + 1] == [rows[0]] + rows[1..][..q];
    forall i, j | 0 <= i < j < |out|
      ensures RowId(out[i]) < RowId(out[j])
    {
      if i == 0 {
        assert out[j] == rest[j - 1];
        assert rest[j - 1] == Live(m) || exists k :: 0 < k < |rows| && rest[j - 1] == rows[k];
      }
    }
  }

  // --- answering ------------------------------------------------------------------------------------------

  /** The verdict carries these words, and they are not blank. */
  ghost predicate Says(verdict: Verdict, words: Utf8) {
    && (verdict.Correct? || verdict.Reject?)
    && (verdict.Correct? ==> words == verdict.correction)
    && (verdict.Reject? ==> verdict.note == Some(words))
    && exists i :: 0 <= i < |words| && words[i] !in {9, 10, 11, 12, 13, 32}
  }

  /** The quest can be answered: open, unanswered, and not past its expiry. */
  predicate Answerable(r: QuestRow, id: Uuid, now: i64) {
    r.quest.issued.id == id && r.status == Open && r.quest.verdict == None && now <= r.quest.expiresAt
  }

  /** The row after the answer: the verdict and the instant it was given, the rest as it
      was. */
  predicate RecordsAnswer(before: QuestRow, after: QuestRow, verdict: Verdict, now: i64) {
    && after.quest.verdict == Some(verdict) && after.status == Answered && after.answeredAt == Some(now)
    && after.quest.issued == before.quest.issued && after.quest.claim == before.quest.claim
    && after.quest.leafSalt == before.quest.leafSalt && after.quest.verdictSalt == before.quest.verdictSalt
    && after.quest.expiresAt == before.quest.expiresAt
    && after.committedSeq == before.committedSeq && after.verdictCommittedSeq == before.verdictCommittedSeq
  }

  /** Nothing outside the quest rows and the memories moves. */
  predicate SameHistory(v: State, w: State) {
    w.footage == v.footage && w.leaves == v.leaves && w.anchors == v.anchors
  }

  /** The memories after the answer: with one more of that instant if the verdict says
      something, and as they were if not. */
  ghost predicate Remembers(before: seq<MemoryRow>, after: seq<MemoryRow>, p: nat, verdict: Verdict, now: i64,
                            slotId: Uuid, slotSalt: Salt)
  {
    && (after == before || exists words :: Says(verdict, words))
    && forall words :: Says(verdict, words) ==>
         InsertedAt(before, after, p, Live(Memory(slotId, words, Some(now), now, slotSalt)))
  }

  /** Row `i` records the answer, and no other row moves. */
  predicate OneRecords(before: seq<QuestRow>, after: seq<QuestRow>, i: nat, verdict: Verdict, now: i64) {
    && |after| == |before| && i < |before| && RecordsAnswer(before[i], after[i], verdict, now)
    && forall k :: 0 <= k < |before| && k != i ==> after[k] == before[k]
  }

  predicate Taken(r: Option<AnswerError>) {
    r == None || r == Some(MemoryExists)
  }

  /** What one answer does. It is taken exactly when a row can be answered and its
      commitment holds; refused, it changes nothing. Taken, one row records it and no other
      row moves; and words that are not blank become one memory, of that instant, unless
      its id is taken. */
  lemma AnswerExact(v: State, id: Uuid, verdict: Verdict, now: i64, slotId: Uuid, slotSalt: Salt, ok: bool)
    returns (i: nat, p: nat)
    requires IdsAscend(v.quests) && MemoriesAscend(v.memories)
    ensures var (r, w) := AnswerQuest(v, id, verdict, now, slotId, slotSalt, ok);
      && SameHistory(v, w)
      && (Taken(r) <==> ok && exists k :: 0 <= k < |v.quests| && Answerable(v.quests[k], id, now))
      && (!Taken(r) ==> w == v)
      && (Taken(r) ==> OneRecords(v.quests, w.quests, i, verdict, now) && Answerable(v.quests[i], id, now))
      && (r == None ==> Remembers(v.memories, w.memories, p, verdict, now, slotId, slotSalt))
      && (r == Some(MemoryExists) ==>
            w.memories == v.memories && HasId(v.memories, slotId) && exists words :: Says(verdict, words))
  {
    hide MemoriesAscend, InsertMemory, Words, Says, InsertedAt, FindQuest, AnswerRow, OneRecords, Remembers;
    FindQuestExact(v.quests, id);
    i := if FindQuest(v.quests, id).Some? then FindQuest(v.quests, id).value else 0;
    if i < |v.quests| {
      RowRecords(v.quests, i, verdict, now);
    }
    p := WordsRemembered(v.memories, verdict, now, slotId, slotSalt);
  }

  /** Why an answer is refused, in the order the reasons are looked at. */
  lemma AnswerRefusals(v: State, id: Uuid, verdict: Verdict, now: i64, slotId: Uuid, slotSalt: Salt, ok: bool, k: nat)
    requires IdsAscend(v.quests)
    ensures var r := AnswerQuest(v, id, verdict, now, slotId, slotSalt, ok).0;
      && (r == Some(NoSuchQuest) <==> forall j :: 0 <= j < |v.quests| ==> v.quests[j].quest.issued.id != id)
      && (k < |v.quests| && v.quests[k].quest.issued.id == id ==>
            var answered := v.quests[k].quest.verdict != None || v.quests[k].status == Answered;
            var late := now > v.quests[k].quest.expiresAt;
            && (r == Some(CommitmentMismatch) <==> !ok)
            && (r == Some(AlreadyAnswered) <==> ok && answered)
            && (r == Some(PastExpiry) <==> ok && !answered && late)
            && (r == Some(NotOpen) <==> ok && !answered && !late && v.quests[k].status != Open))
  {
    hide InsertMemory, Words, FindQuest, AnswerRow;
    FindQuestExact(v.quests, id);
  }

  lemma RowRecords(rows: seq<QuestRow>, i: nat, verdict: Verdict, now: i64)
    requires i < |rows|
    ensures OneRecords(rows, rows[i := AnswerRow(rows[i], verdict, now)], i, verdict, now)
  {
  }

  lemma WordsRemembered(rows: seq<MemoryRow>, verdict: Verdict, now: i64, slotId: Uuid, slotSalt: Salt)
    returns (p: nat)
    requires MemoriesAscend(rows)
    ensures Words(verdict).None? ==> Remembers(rows, rows, p, verdict, now, slotId, slotSalt)
    ensures Words(verdict).Some? ==>
      var inserted := InsertMemory(rows, Memory(slotId, Words(verdict).value, Some(now), now, slotSalt));
      && (exists words :: Says(verdict, words))
      && (inserted.Some? ==> Remembers(rows, inserted.value, p, verdict, now, slotId, slotSalt))
      && (inserted.None? ==> HasId(rows, slotId))
  {
    hide MemoriesAscend, InsertMemory, Words, Says, InsertedAt;
    p := 0;
    WordsExact(verdict);
    if Words(verdict).Some? {
      assert Says(verdict, Words(verdict).value);
      p := InsertExact(rows, Memory(slotId, Words(verdict).value, Some(now), now, slotSalt));
    }
  }

  lemma WordsExact(verdict: Verdict)
    ensures Words(verdict).Some? ==> Says(verdict, Words(verdict).value)
    ensures forall words :: Says(verdict, words) ==> Words(verdict) == Some(words)
  {
  }

  lemma {:induction false} FindQuestExact(rows: seq<QuestRow>, id: Uuid)
    requires IdsAscend(rows)
    ensures var r := FindQuest(rows, id);
      && (r.Some? ==> r.value < |rows| && rows[r.value].quest.issued.id == id)
      && forall k :: 0 <= k < |rows| && rows[k].quest.issued.id == id ==> r == Some(k)
    decreases |rows|
  {
    if rows != [] {
      FindQuestExact(rows[1..], id);
      forall k | 0 <= k < |rows| && rows[k].quest.issued.id == id
        ensures FindQuest(rows, id) == Some(k)
      {
        if k > 0 {
          assert rows[1..][k - 1].quest.issued.id == id;
        }
      }
    }
  }

  /** At every instant an open, unanswered quest can be answered or is closed by the expiry
      sweep, and never both. */
  lemma AnswerableOrExpired(rows: seq<QuestRow>, i: nat, now: i64)
    requires i < |rows| && rows[i].status == Open && rows[i].quest.verdict == None
    ensures Answerable(rows[i], rows[i].quest.issued.id, now) <==> ExpireRows(rows, now)[i] == rows[i]
    ensures !Answerable(rows[i], rows[i].quest.issued.id, now) <==> ExpireRows(rows, now)[i].status == Expired
  {
  }

  // --- the tables keep their keys --------------------------------------------------------------------------

  ghost predicate KeysAscend(v: State) {
    MemoriesAscend(v.memories) && IdsAscend(v.quests)
  }

  lemma ShredKeepsIds(rows: seq<MemoryRow>, id: Uuid)
    ensures forall i :: 0 <= i < |rows| ==> RowId(ShredRows(rows, id)[i]) == RowId(rows[i])
  {
  }

  lemma StepKeepsKeys(h: HashFn, genesis: Digest, v: State, op: Op)
    requires Sound(h, genesis, v) && MemoriesAscend(v.memories)
    ensures MemoriesAscend(Apply(h, genesis, v, op).memories)
  {
    hide Sound, Seal, FindQuest, AnswerRow, Words, InsertQuest, ExpireRows, InsertMemory;
    match op {
      case StoreMemory(m) => var _ := InsertExact(v.memories, m);
      case Shred(id) => ShredKeepsIds(v.memories, id);
      case Answer(_, verdict, now, slotId, slotSalt, _) =>
        if Words(verdict).Some? {
          var _ := InsertExact(v.memories, Memory(slotId, Words(verdict).value, Some(now), now, slotSalt));
        }
      case SealDay(date, tz, start, end, version, draftOk) =>
        SealLeavesRows(h, genesis, v, date, tz, start, end, version, draftOk);
      case _ =>
    }
  }

  lemma SealLeavesRows(h: HashFn, genesis: Digest, v: State, date: Date, tz: TzName, start: i64, end: i64,
                       version: Version, draftOk: bool)
    ensures var r := Seal(h, genesis, Sealer, v, date, tz, start, end, version, draftOk);
      r.Ok? ==> r.value.memories == v.memories && r.value.anchors == v.anchors
                && (version == MemoriesOnly ==> r.value.quests == v.quests)
  {
    hide BuildRoot, Window, MarkCommitted, LinkPreimage;
  }

  lemma {:induction false} RunKeepsKeys(h: HashFn, genesis: Digest, v: State, ops: seq<Op>)
    requires Sound(h, genesis, v) && MemoriesAscend(v.memories)
    ensures KeysAscend(Run(h, genesis, v, ops))
    decreases |ops|
  {
    hide Apply, MemoriesAscend, DaysGood, Intact, DaysFrozen;
    if ops != [] {
      StepKeeps(h, genesis, v, ops[0]);
      StepKeepsKeys(h, genesis, v, ops[0]);
      RunKeepsKeys(h, genesis, Apply(h, genesis, v, ops[0]), ops[1..]);
    }
  }

  // --- what was written is sealed ----------------------------------------------------------------------------

  /** Not a seal that commits quests and verdicts. */
  predicate StampsNothing(op: Op) {
    op.SealDay? ==> op.version == MemoriesOnly
  }

  /** The row holds the quest as it was issued, and no day has committed it. */
  predicate AwaitsIssue(r: QuestRow, q: Quest) {
    r.quest.issued == q.issued && r.quest.leafSalt == q.leafSalt && r.committedSeq == None
  }

  lemma IssueStays(h: HashFn, genesis: Digest, v: State, op: Op, q: Quest)
    requires Sound(h, genesis, v) && StampsNothing(op)
    requires exists r :: r in v.quests && AwaitsIssue(r, q)
    ensures exists r :: r in Apply(h, genesis, v, op).quests && AwaitsIssue(r, q)
  {
    hide Seal, DaysGood, Intact, InsertMemory, Words, FindQuest, InsertQuest;
    var r :| r in v.quests && AwaitsIssue(r, q);
    var i :| 0 <= i < |v.quests| && v.quests[i] == r;
    var w := Apply(h, genesis, v, op);
    match op {
      case Issue(p) =>
        if IssueQuest(v, p).Some? {
          InsertedQuestSane(v.quests, p, |v.footage|);
        }
        assert r in w.quests;
      case SealDay(date, tz, start, end, version, draftOk) =>
        SealLeavesRows(h, genesis, v, date, tz, start, end, version, draftOk);
        assert r in w.quests;
      case Answer(id, verdict, now, slotId, slotSalt, ok) =>
        AnswerShape(v, id, verdict, now, slotId, slotSalt, ok);
        assert w.quests[i] in w.quests && AwaitsIssue(w.quests[i], q);
      case _ =>
        assert w.quests[i] in w.quests && AwaitsIssue(w.quests[i], q);
    }
  }

  /** An answered row is moved by nothing but the seal that commits it. */
  lemma AnswerStays(h: HashFn, genesis: Digest, v: State, op: Op, r: QuestRow)
    requires Sound(h, genesis, v) && StampsNothing(op) && r in v.quests && r.status == Answered
    ensures r in Apply(h, genesis, v, op).quests
  {
    hide Seal, DaysGood, Intact, InsertMemory, Words, FindQuest, InsertQuest;
    var i :| 0 <= i < |v.quests| && v.quests[i] == r;
    var w := Apply(h, genesis, v, op);
    match op {
      case Issue(p) =>
        if IssueQuest(v, p).Some? {
          InsertedQuestSane(v.quests, p, |v.footage|);
        }
      case SealDay(date, tz, start, end, version, draftOk) =>
        SealLeavesRows(h, genesis, v, date, tz, start, end, version, draftOk);
      case Answer(id, verdict, now, slotId, slotSalt, ok) =>
        AnswerShape(v, id, verdict, now, slotId, slotSalt, ok);
        assert w.quests[i] == r;
      case _ =>
        assert w.quests[i] == r;
    }
  }

  lemma {:induction false} RunLeavesWaiting(h: HashFn, genesis: Digest, v: State, ops: seq<Op>, r: QuestRow, q: Quest)
    requires Sound(h, genesis, v) && forall i :: 0 <= i < |ops| ==> StampsNothing(ops[i])
    ensures Sound(h, genesis, Run(h, genesis, v, ops))
    ensures r in v.quests && r.status == Answered ==> r in Run(h, genesis, v, ops).quests
    ensures (exists r :: r in v.quests && AwaitsIssue(r, q)) ==>
      exists r :: r in Run(h, genesis, v, ops).quests && AwaitsIssue(r, q)
    decreases |ops|
  {
    hide Apply, Sound, DaysFrozen, AwaitsIssue;
    if ops != [] {
      StepKeeps(h, genesis, v, ops[0]);
      if r in v.quests && r.status == Answered {
        AnswerStays(h, genesis, v, ops[0], r);
      }
      if exists r :: r in v.quests && AwaitsIssue(r, q) {
        IssueStays(h, genesis, v, ops[0], q);
      }
      RunLeavesWaiting(h, genesis, Apply(h, genesis, v, ops[0]), ops[1..], r, q);
    }
  }

  lemma {:induction false} QuestLeafHeld(h: HashFn, rows: seq<QuestRow>, r: QuestRow)
    requires r in rows
    ensures h(QuestPreimage(r.quest)) in QuestLeaves(h, rows)
    decreases |rows|
  {
    hide QuestPreimage;
    if r != rows[0] {
      assert r in rows[1..];
      QuestLeafHeld(h, rows[1..], r);
    }
  }

  lemma {:induction false} VerdictLeafHeld(h: HashFn, rows: seq<QuestRow>, r: QuestRow)
    requires r in rows && VerdictLeaves(h, rows).Ok?
    ensures r.quest.verdict.Some?
    ensures h(VerdictPreimage(r.quest, r.quest.verdict.value, AnsweredAt(r))) in VerdictLeaves(h, rows).value
    decreases |rows|
  {
    hide VerdictPreimage;
    if r != rows[0] {
      assert r in rows[1..];
      VerdictLeafHeld(h, rows[1..], r);
    }
  }

  /** What waits for a day is in the leaves of the seal that comes next. */
  lemma WaitingIsSealed(h: HashFn, genesis: Digest, v: State, date: Date, tz: TzName, start: i64, end: i64,
                        draftOk: bool, r: QuestRow)
    requires Sound(h, genesis, v) && r in v.quests
    requires Seal(h, genesis, Sealer, v, date, tz, start, end, WithQuests, draftOk).Ok?
    ensures var w := Seal(h, genesis, Sealer, v, date, tz, start, end, WithQuests, draftOk).value;
      && |w.footage| == |v.footage| + 1 && Rederived(h, w, w.footage[|v.footage|]).Ok?
      && var ds := Rederived(h, w, w.footage[|v.footage|]).value;
      && (r.committedSeq == None ==> h(QuestPreimage(r.quest)) in ds)
      && (r.status == Answered && r.verdictCommittedSeq == None ==>
            r.quest.verdict.Some? && h(VerdictPreimage(r.quest, r.quest.verdict.value, AnsweredAt(r))) in ds)
  {
    hide Seal, Sound, Rederived, Window, QuestPreimage, VerdictPreimage, MetaDigest, MemoryLeaves, QuestsStamped,
         VerdictsStamped, RootOfSet;
    SealedDayRederives(h, genesis, v, date, tz, start, end, WithQuests, draftOk);
    QuestsFrom(v.quests, None);
    VerdictsFrom(v.quests, None);
    if r.committedSeq == None {
      QuestLeafHeld(h, QuestsStamped(v.quests, None), r);
    }
    if r.status == Answered && r.verdictCommittedSeq == None {
      VerdictLeafHeld(h, VerdictsStamped(v.quests, None), r);
    }
  }

  /** A seal under quests that succeeds. */
  predicate Seals(h: HashFn, genesis: Digest, v: State, op: Op) {
    op.SealDay? && op.version == WithQuests
    && Seal(h, genesis, Sealer, v, op.date, op.tz, op.start, op.end, op.version, op.draftOk).Ok?
  }

  /** Day `n` is sealed, and its re-derived leaves hold this one. */
  predicate DayHolds(h: HashFn, v: State, n: nat, p: Preimage) {
    n < |v.footage| && Rederived(h, v, v.footage[n]).Ok? && h(p) in Rederived(h, v, v.footage[n]).value
  }

  lemma {:induction false} HoldsOn(h: HashFn, genesis: Digest, v: State, op: Op, rest: seq<Op>, r: QuestRow)
    requires Sound(h, genesis, v) && Seals(h, genesis, v, op) && r in v.quests
    ensures var z := Run(h, genesis, Apply(h, genesis, v, op), rest);
      && (r.committedSeq == None ==> DayHolds(h, z, |v.footage|, QuestPreimage(r.quest)))
      && (r.status == Answered && r.verdictCommittedSeq == None ==>
            r.quest.verdict.Some?
            && DayHolds(h, z, |v.footage|, VerdictPreimage(r.quest, r.quest.verdict.value, AnsweredAt(r))))
  {
    hide Seal, Sound, Rederived, QuestPreimage, VerdictPreimage, Run;
    var w := Apply(h, genesis, v, op);
    var z := Run(h, genesis, w, rest);
    WaitingIsSealed(h, genesis, v, op.date, op.tz, op.start, op.end, op.draftOk, r);
    StepKeeps(h, genesis, v, op);
    RunKeeps(h, genesis, w, rest);
    assert z.footage[|v.footage|] == z.footage[..|w.footage|][|v.footage|];
  }

  /** An answer that was taken, at any point of a run, is in the next day sealed under
      quests, whatever comes between and after: that day derives the verdict given, at the
      instant it was given, for the quest it was given to. */
  lemma AnswerIsSealed(h: HashFn, genesis: Digest, ops: seq<Op>, answer: Op, more: seq<Op>, seal: Op, rest: seq<Op>)
    returns (i: nat)
    requires answer.Answer?
    requires Taken(AnswerQuest(Run(h, genesis, FRESH, ops), answer.id, answer.verdict, answer.now, answer.slotId,
                               answer.slotSalt, answer.commitmentOk).0)
    requires forall k :: 0 <= k < |more| ==> StampsNothing(more[k])
    requires Seals(h, genesis, Run(h, genesis, Apply(h, genesis, Run(h, genesis, FRESH, ops), answer), more), seal)
    ensures var v := Run(h, genesis, FRESH, ops);
      var u := Run(h, genesis, Apply(h, genesis, v, answer), more);
      var z := Run(h, genesis, Apply(h, genesis, u, seal), rest);
      && i < |v.quests| && Answerable(v.quests[i], answer.id, answer.now)
      && DayHolds(h, z, |u.footage|, VerdictPreimage(v.quests[i].quest, answer.verdict, answer.now))
  {
    hide Run, Sound, AnswerQuest, Seals, StampsNothing, DayHolds, DaysFrozen;
    var v := Run(h, genesis, FRESH, ops);
    var a := Apply(h, genesis, v, answer);
    FreshIsSound(h, genesis);
    RunKeeps(h, genesis, FRESH, ops);
    RunKeepsKeys(h, genesis, FRESH, ops);
    StepKeeps(h, genesis, v, answer);
    var at, p := AnswerExact(v, answer.id, answer.verdict, answer.now, answer.slotId, answer.slotSalt,
                             answer.commitmentOk);
    i := at;
    var r := a.quests[i];
    RunLeavesWaiting(h, genesis, a, more, r, r.quest);
    HoldsOn(h, genesis, Run(h, genesis, a, more), seal, rest, r);
    OpenIsUnstamped(h, genesis, v, i);
    VerdictLeafBinds(r.quest, answer.verdict, answer.now, v.quests[i].quest, answer.verdict, answer.now);
  }

  lemma OpenIsUnstamped(h: HashFn, genesis: Digest, v: State, i: nat)
    requires Sound(h, genesis, v) && i < |v.quests| && v.quests[i].status == Open
    ensures v.quests[i].verdictCommittedSeq == None
  {
    hide Intact, DaysGood;
    assert RowSane(v.quests[i], |v.footage|);
  }

  /** A quest that was issued is in the next day sealed under quests, as it was issued,
      answered meanwhile or not. */
  lemma IssueIsSealed(h: HashFn, genesis: Digest, ops: seq<Op>, q: Quest, more: seq<Op>, seal: Op, rest: seq<Op>)
    requires IssueQuest(Run(h, genesis, FRESH, ops), q).Some?
    requires forall k :: 0 <= k < |more| ==> StampsNothing(more[k])
    requires Seals(h, genesis, Run(h, genesis, Apply(h, genesis, Run(h, genesis, FRESH, ops), Issue(q)), more), seal)
    ensures var v := Run(h, genesis, FRESH, ops);
      var u := Run(h, genesis, Apply(h, genesis, v, Issue(q)), more);
      DayHolds(h, Run(h, genesis, Apply(h, genesis, u, seal), rest), |u.footage|, QuestPreimage(q))
  {
    hide Run, Sound, Seals, StampsNothing, DayHolds, DaysFrozen, InsertQuest, QuestPreimage;
    var v := Run(h, genesis, FRESH, ops);
    var a := Apply(h, genesis, v, Issue(q));
    FreshIsSound(h, genesis);
    RunKeeps(h, genesis, FRESH, ops);
    StepKeeps(h, genesis, v, Issue(q));
    var r := QuestRow(q, Open, None, None, None);
    InsertedHere(v.quests, q);
    assert r in a.quests && AwaitsIssue(r, q);
    RunLeavesWaiting(h, genesis, a, more, r, q);
    var u := Run(h, genesis, a, more);
    var s :| s in u.quests && AwaitsIssue(s, q);
    HoldsOn(h, genesis, u, seal, rest, s);
    QuestLeafBinds(s.quest, q);
  }

  lemma {:induction false} InsertedHere(rows: seq<QuestRow>, q: Quest)
    requires InsertQuest(rows, q).Some?
    ensures QuestRow(q, Open, None, None, None) in InsertQuest(rows, q).value
  {
    if rows != [] && q.issued.id > rows[0].quest.issued.id {
      InsertedHere(rows[1..], q);
    }
  }

  /** A quest is issued exactly when its id is new. */
  lemma {:induction false} IssueExact(rows: seq<QuestRow>, q: Quest)
    requires IdsAscend(rows)
    ensures InsertQuest(rows, q).Some? <==> forall i :: 0 <= i < |rows| ==> rows[i].quest.issued.id != q.issued.id
    decreases |rows|
  {
    if rows != [] && q.issued.id > rows[0].quest.issued.id {
      IssueExact(rows[1..], q);
      forall i | 0 <= i < |rows|
        ensures i > 0 ==> rows[i] == rows[1..][i - 1]
      {
      }
    }
  }
}
